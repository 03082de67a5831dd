/** The values exchanged by the response-interpretation layer: the records the
    tokenizer produces (a closed subset of the IMAP response grammar of RFC 3501),
    the domain objects built from them, and the errors it reports. */
module ImapTypes {

  newtype byte = x: int | 0 <= x < 0x100
  type Bytes = seq<byte>

  /** Unsigned 32-bit integers, the width of every number in the records. */
  newtype u32 = x: int | 0 <= x < 0x1_0000_0000

  datatype Option<+T> = None | Some(value: T)

  /** Completion markers of a status response (section 7.1 of RFC 3501). */
  datatype Status = OK | NO | BAD | PREAUTH | BYE

  /** Bracketed response codes of a status response. The codes the core
      does not look at are kept as their atom. */
  datatype ResponseCode =
    | UidValidity(uidValidity: u32)
    | UidNext(uidNext: u32)
    | Unseen(unseen: u32)
    | PermanentFlags(permanentFlags: seq<string>)
    | Alert
    | ReadOnly
    | ReadWrite
    | TryCreate
    | OtherCode(atom: string)

  /** One item of a FETCH response (section 7.4.2 of RFC 3501). */
  datatype AttributeValue =
    | Flags(flags: seq<string>)
    | Uid(uid: u32)
    | Rfc822(rfc822: Option<Bytes>)
    | Rfc822Header(header: Option<Bytes>)
    | Rfc822Size(size: u32)
    | InternalDate(date: string)
    | BodySection(section: string, index: Option<u32>, data: Option<Bytes>)
    | OtherAttribute(name: string)

  /** Mailbox data responses (section 7.2 and 7.3 of RFC 3501). */
  datatype MailboxDatum =
    | Exists(count: u32)
    | FlagList(flags: seq<string>)
    | List(flags: seq<string>, delimiter: Option<string>, name: string)
    | SubList(flags: seq<string>, delimiter: Option<string>, name: string)
    | Recent(count: u32)
    | MailboxStatus(mailbox: string, items: seq<string>)

  /** One record of server output as the tokenizer reports it. */
  datatype Response =
    | Capabilities(caps: seq<string>)
    | Continue(continueCode: Option<ResponseCode>, continueText: Option<string>)
    | Done(tag: string, doneStatus: Status, doneCode: Option<ResponseCode>, doneText: Option<string>)
    | Data(status: Status, code: Option<ResponseCode>, information: Option<string>)
    | Expunge(expunged: u32)
    | Fetch(num: u32, attrs: seq<AttributeValue>)
    | MailboxData(datum: MailboxDatum)

  /** The errors of the layer: bytes the tokenizer cannot read, a record that
      does not belong in the answer being parsed, a malformed continuation. */
  datatype Error =
    | Invalid(remainder: Bytes)
    | Unexpected(response: Response)
    | Authentication(line: string)

  datatype Result<+T> = Ok(value: T) | Err(error: Error)

  /** A LIST or LSUB entry. */
  datatype Name = Name(attributes: seq<string>, delimiter: Option<string>, name: string)

  /** The attributes of one message gathered from one FETCH record. */
  datatype Fetch = Fetched(
    message: u32,
    flags: seq<string>,
    uid: Option<u32>,
    rfc822Header: Option<Bytes>,
    rfc822: Option<Bytes>,
    body: Option<Bytes>)

  /** The capability names a server announced, case as received. */
  datatype CapabilitySet = CapabilitySet(names: set<string>)

  /** The state of a mailbox reported in answer to SELECT or EXAMINE. */
  datatype Mailbox = Mailbox(
    flags: seq<string>,
    existsCount: u32,
    recentCount: u32,
    unseen: Option<u32>,
    permanentFlags: seq<string>,
    uidNext: Option<u32>,
    uidValidity: Option<u32>)

  /** The value `Mailbox::default()` starts from. */
  const DefaultMailbox := Mailbox([], 0, 0, None, [], None, None)
}
