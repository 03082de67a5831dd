# rust-imap response parsing, modelled in Dafny

This project models `src/parse.rs` of the rust-imap client library. That file turns the raw bytes an IMAP server sends (RFC 3501) into typed answers:

- mailbox names from LIST/LSUB;
- per-message FETCH data;
- the CAPABILITY set;
- the mailbox status that SELECT/EXAMINE report;
- the message ids of a SEARCH;
- the payload of an AUTHENTICATE continuation line.

It also implements the unilateral-response rule of section 7 of RFC 3501, in the generic record walker (`parse_many`) that `parse_names` and `parse_fetches` use: an EXISTS, RECENT, FETCH or EXPUNGE record the classifier does not take is skipped rather than treated as an error. The two fold loops have their own loops and do not apply that rule:

- `parse_capabilities` rejects every record that is not CAPABILITY, the four unilateral kinds included.
- `parse_mailbox` folds EXISTS and RECENT as mailbox data, but rejects FETCH and EXPUNGE like any other record that is neither an OK status line nor mailbox data.

The IMAP grammar itself (`imap_proto::parse_response`) is not part of this model. It is a parameter `tok: Tokenizer`: a function from bytes to either a parsed record and the rest of the bytes, or "not parsed". Its one assumption is that a parsed record strictly shortens the buffer (`RecordStream.Progress`). `RecordStream.Tokenize` unrolls the tokenizer into the sequence of records it yields, plus how the bytes end: read to the end, or stuck at bytes it cannot read.

Every loop of the source is a Dafny method with that loop. Each method is proved equal to a declarative function of that record stream:

- `Walker.Walk`: the first stopping record, else unreadable bytes, else all mapped values.
- `CapabilityFold.CapabilitiesOf`.
- `MailboxFold.SelectOutcome` with `MailboxFold.MailboxOf`: last record wins for scalar fields, lists are appended in order.

The properties the source promises are lemmas about those functions.

Files:

| file | module | models |
|---|---|---|
| `types.dfy` | `ImapTypes` | records (`Response`, `MailboxDatum`, `AttributeValue`, `ResponseCode`), `Name`, `Fetch`, `Mailbox`, errors |
| `folds.dfy` | `Folds` | generic last-wins, concatenation, filter and first-index folds with their lemmas |
| `stream.dfy` | `RecordStream` | the tokenizer parameter and the record stream it yields |
| `walker.dfy` | `Walker` | `parse_many`, `MapOrNot`, the unilateral-response rule |
| `names.dfy` | `Names` | `parse_names` |
| `fetches.dfy` | `Fetches` | `parse_fetches` and its attribute loop |
| `capabilities.dfy` | `CapabilityFold` | `parse_capabilities` |
| `mailbox.dfy` | `MailboxFold` | `parse_mailbox` |
| `utf8.dfy` | `Utf8` | the UTF-8 check `str::from_utf8` performs |
| `search.dfy` | `SearchIds` | `parse_search_ids` |
| `authenticate.dfy` | `AuthenticateLine` | `parse_authenticate_response` |

Three behaviours of the code are modelled as written, though a reader of RFC 3501 might expect otherwise:

- **SEARCH prefix.** The SEARCH answer must start with `* ` exactly: the pattern has no optional part before `SEARCH`, so a line without the untagged marker does not match.
- **AUTHENTICATE `+`.** The AUTHENTICATE pattern neither requires nor strips a leading `+` (see Findings).
- **Non-OK status line in `parse_mailbox`.** It is a panic (`unreachable!()`), modelled as the distinct outcome `MailboxFold.Unreachable`, not as an error value.

## Model

| member | source | states |
|---|---|---|
| Walker.IsUnilateral | src/parse.rs:47-53 | definition: the records skipped when the classifier hands them back are exactly MailboxData RECENT, MailboxData EXISTS, FETCH and EXPUNGE |
| Walker.Walk | src/parse.rs:27-68 | definition of what the walk of a record stream gives: Unexpected with the record the classifier hands back at the first record it neither maps, ignores nor finds unilateral; else Invalid with the bytes the tokenizer could not read; else the mapped values in record order |
| Walker.ParseMany | src/parse.rs:27-68 | the loop returns the walk of the record stream: an error at the first record the classifier hands back that is not unilateral, else Invalid with the bytes the tokenizer could not read, else the mapped values in record order; an empty buffer gives an empty answer |
| Walker.WalkAccepts | src/parse.rs:34-35 | a stream read to its end with no stopping record gives every mapped value in order |
| Walker.WalkStopsAt | src/parse.rs:54 | the first stopping record ends the walk with Unexpected carrying the record the classifier handed back |
| Walker.WalkStuck | src/parse.rs:60-62 | bytes the tokenizer cannot read end the walk with Invalid carrying exactly those remaining bytes |
| Walker.WalkSucceedsIff | src/parse.rs:33-64 | the walk succeeds exactly when the buffer is read to its end and no record stops it, and its answer is then the mapped values |
| Walker.WalkSkipsUnilateral | src/parse.rs:44-57 | inserting a record the classifier ignores, or hands back as RECENT, EXISTS, FETCH or EXPUNGE, anywhere in the stream changes nothing in the outcome |
| Walker.WalkOnlyUnilateral | src/parse.rs:47-53 | a buffer of nothing but unilateral records the classifier hands back gives an empty answer |
| Walker.MappedAppend | src/parse.rs:42-43 | the values of two consecutive runs of records are the values of the first followed by those of the second |
| Names.ClassifyName | src/parse.rs:72-89 | a record maps exactly when it is LIST or LSUB, to the Name with that record's flags, delimiter and name; every other record is handed back unchanged as Not |
| Names.ParseNames | src/parse.rs:70-92 | succeeds exactly when the buffer is read to its end and every record is LIST, LSUB or unilateral; the answer has one Name per LIST/LSUB record, in order, with its attributes, delimiter and name |
| Names.NamesAreListings | src/parse.rs:72-89 | the mapped values are exactly the Names of the LIST and LSUB records, in order |
| Names.NameRejects | src/parse.rs:72-89 | a record stops the names walk exactly when it is neither LIST, LSUB nor unilateral |
| Names.OneListing | src/parse.rs:268-276 | one `LIST (\HasNoChildren) "." "INBOX"` record gives one Name with those attributes, delimiter and name |
| Fetches.FetchOf | src/parse.rs:97-122 | definition of the Fetch one record describes: its number, all FLAGS lists joined in order, and for UID, RFC822, RFC822.HEADER and BODY[] the value of the last attribute of that kind, None when there is none |
| Fetches.ClassifyFetch | src/parse.rs:95-125 | a record maps exactly when it is FETCH, to the Fetch of its number and attributes, with `message` the record's number; every other record is handed back unchanged as Not |
| Fetches.BuildFetch | src/parse.rs:97-122 | the attribute loop builds the Fetch whose flags are all FLAGS lists in order and whose UID, RFC822, RFC822.HEADER and BODY[] are those of the last attribute of each kind |
| Fetches.FetchLastWins | src/parse.rs:106-120 | the last UID, RFC822, RFC822.HEADER or BODY[] attribute sets its field, an absent payload included |
| Fetches.FetchUntouched | src/parse.rs:97-104 | a field no attribute sets keeps its initial None |
| Fetches.FetchFlagsExtend | src/parse.rs:109-111 | FLAGS extend: the flags of a split attribute list are those of its first part followed by those of its second |
| Fetches.FetchesPerRecord | src/parse.rs:95-125 | the mapped values are one Fetch per FETCH record, in order, each built from that record's number and attributes |
| Fetches.ParseFetches | src/parse.rs:94-128 | succeeds exactly when the buffer is read to its end and every record is unilateral; the answer is one Fetch per FETCH record, in order |
| Fetches.FetchThenRecent | src/parse.rs:302-312 | `* 37 FETCH (UID 74)` followed by `* 1 RECENT` gives exactly one Fetch, message 37 with UID 74 |
| CapabilityFold.CapabilitiesOf | src/parse.rs:131-151 | definition of what reading a record stream for capabilities gives: Unexpected at the first record that is not CAPABILITY, else Invalid with the unread bytes (none for an empty buffer), else the union of the names the records list |
| CapabilityFold.ParseCapabilities | src/parse.rs:130-155 | the loop returns Unexpected at the first record that is not CAPABILITY, else Invalid with the unread bytes (all of them for an empty buffer), else the set of all listed names |
| CapabilityFold.CapabilitiesSucceedIff | src/parse.rs:134-151 | the call succeeds exactly when there is at least one record, all records are CAPABILITY and the buffer is read to its end; the set then holds their names |
| CapabilityFold.CapabilitiesStopAt | src/parse.rs:144-146 | a record of another kind after CAPABILITY records ends the call with Unexpected carrying that record |
| CapabilityFold.CapabilitiesStuck | src/parse.rs:147-149 | an empty buffer, or bytes the tokenizer cannot read, give Invalid with the unread bytes |
| CapabilityFold.CapsMembership | src/parse.rs:133-138 | a name is in the set exactly when some CAPABILITY record lists it, whatever the order or repetition |
| CapabilityFold.FourCapabilities | src/parse.rs:250-259 | `* CAPABILITY IMAP4rev1 STARTTLS AUTH=GSSAPI LOGINDISABLED` gives exactly those four names |
| CapabilityFold.FirstRecordDecides | src/parse.rs:261-266 | unreadable bytes, or a first record of another kind such as `* JUNK`, make the call fail |
| MailboxFold.MailboxOf | src/parse.rs:158-211 | definition of the Mailbox records describe, from the default one: FLAGS and PERMANENTFLAGS lists appended in order, EXISTS, RECENT, UNSEEN, UIDNEXT and UIDVALIDITY set by the last record carrying them |
| MailboxFold.SelectOutcome | src/parse.rs:160-223 | definition of how the fold of a record stream ends: at the first record that is neither an OK status line nor mailbox data, the fault for a status line and Unexpected otherwise; else Invalid with the unread bytes (none for an empty buffer); else the Mailbox of the records |
| MailboxFold.ParseMailbox | src/parse.rs:157-224 | the loop returns the fault at the first status line that is not OK, Unexpected at the first record that is neither a status line nor mailbox data, Invalid with the unread bytes, or else the Mailbox the records describe |
| MailboxFold.FoldRecord | src/parse.rs:162-211 | folding one more acceptable record gives the Mailbox of the records seen so far plus that record |
| MailboxFold.MailboxSnoc | src/parse.rs:172-208 | one more record appends its FLAGS and PERMANENTFLAGS and overrides each other field it carries, leaving the rest as they were |
| MailboxFold.SelectAccepted | src/parse.rs:220-222 | a non-empty stream read to its end with only OK status lines and mailbox data gives the Mailbox they describe |
| MailboxFold.SelectStopsAt | src/parse.rs:212-214 | the first record that is neither an OK status line nor mailbox data ends the fold: a status line of another kind is the fault, anything else is Unexpected carrying it |
| MailboxFold.SelectStuck | src/parse.rs:215-217 | an empty buffer, or bytes the tokenizer cannot read, give Invalid with the unread bytes |
| MailboxFold.SelectSucceedsIff | src/parse.rs:160-223 | the fold succeeds exactly when there is at least one record, every record is an OK status line or mailbox data, and the buffer is read to its end; the answer is then the Mailbox they describe |
| MailboxFold.MailboxLastWins | src/parse.rs:172-203 | the last record carrying EXISTS, RECENT, UNSEEN, UIDNEXT or UIDVALIDITY sets that field |
| MailboxFold.MailboxUntouched | src/parse.rs:158 | a field no record sets keeps its default: 0 for the counts, None for the optional fields |
| MailboxFold.MailboxFlagsExtend | src/parse.rs:182-208 | FLAGS and PERMANENTFLAGS extend: the lists of a split stream are those of the first part followed by those of the second |
| MailboxFold.MailboxNeutral | src/parse.rs:187-209 | STATUS, LIST and LSUB records, and OK status lines without one of the four response codes read, leave the Mailbox unchanged |
| MailboxFold.SelectFirstRecord | src/parse.rs:161-217 | unreadable bytes give Invalid with the whole buffer; a first status line that is not OK is the fault; a first record of another kind is Unexpected |
| MailboxFold.SelectExample | src/parse.rs:157-224 | FLAGS (\Seen), 3 EXISTS and OK [UIDVALIDITY 7] give a Mailbox with those flags, 3 messages, UIDVALIDITY 7 and defaults elsewhere |
| Utf8.DecodeEncode | src/parse.rs:227 | decoding the UTF-8 form of any text gives the text back |
| Utf8.DecodedIsEncoding | src/parse.rs:227 | bytes `str::from_utf8` accepts are exactly the UTF-8 form of the text they decode to |
| Utf8.SequenceEncodes | src/parse.rs:227 | every well-formed sequence (no overlong form, surrogate or value above U+10FFFF) spells a scalar value and is that value's encoding |
| Utf8.EncodeCharDecodes | src/parse.rs:227 | the bytes of one character form one well-formed sequence, whatever follows, and spell that character |
| SearchIds.SearchCapture | src/parse.rs:229-230 | definition of the pattern by its language: `* `, SEARCH in any case, then only white space and digits starting with white space; the capture is that tail up to its last digit |
| SearchIds.ParseSearchIds | src/parse.rs:226-244 | the call fails exactly when the bytes are not UTF-8 or the text does not match the pattern, and the error then carries the whole input |
| SearchIds.SearchCaptureComplete | src/parse.rs:229-230 | the pattern matches `* `, SEARCH in any case, a group of white-space-led decimals and trailing white space, and captures exactly that group |
| SearchIds.SearchCaptureSound | src/parse.rs:229-230 | conversely, every matched line is `* `, the word, a group in the group's language, and white space |
| SearchIds.SearchOfGroup | src/parse.rs:226-238 | a matching line gives the ids of the space-separated pieces of its trimmed group |
| SearchIds.SearchRoundTrip | src/parse.rs:226-244 | `* `, SEARCH in any case, each id after one space and any trailing white space parse to exactly those ids in order |
| SearchIds.EmptySearch | src/parse.rs:332-333 | `* SEARCH` alone gives an empty list |
| SearchIds.LowerCaseSearch | src/parse.rs:229 | `* search 5` CRLF gives [5] |
| SearchIds.SearchRejectsOther | src/parse.rs:239 | `* JUNK 1` is an Invalid error carrying its bytes |
| SearchIds.OverflowDropped | src/parse.rs:236 | a decimal at or above 2^32 contributes no id |
| SearchIds.TabSeparatedIds | src/parse.rs:229-236 | two ids separated by a tab match the pattern but form one piece that does not parse, so neither is reported |
| SearchIds.TabPieceDropped | src/parse.rs:234-236 | two runs of digits separated by a tab trim to themselves, do not split at spaces, and parse to no id |
| SearchIds.JoinSplit | src/parse.rs:235 | splitting at a separator loses nothing: joining the pieces with it gives the text back |
| SearchIds.SplitJoin | src/parse.rs:235 | splitting undoes joining pieces that do not contain the separator |
| SearchIds.U32RoundTrip | src/parse.rs:236 | the decimal form of every u32 parses back to it |
| SearchIds.ListingParses | src/parse.rs:233-237 | the ids come back from trimming, splitting and parsing a listing of their decimals |
| AuthenticateLine.ParseAuthenticateResponse | src/parse.rs:9-18 | an accepted line starts with its payload followed by CRLF, and the payload holds no line feed; a refused line gives the Authentication error carrying the line unchanged |
| AuthenticateLine.AuthenticateRoundTrip | src/parse.rs:9-14 | a payload without a line feed, then CRLF and anything, gives the payload back unchanged, a leading `+` included |
| AuthenticateLine.AuthenticateFails | src/parse.rs:9-17 | a line fails exactly when no CRLF precedes its first bare line feed, and the error carries the line unchanged |
| AuthenticateLine.PlusIsKept | src/parse.rs:10-14 | as written, `+abc123` CRLF gives `+abc123`, and `abc123` CRLF, with no `+`, is accepted as `abc123` |
| AuthenticateLine.IntendedRoundTrip | src/parse.rs:10 | with the plus sign escaped, `+`, a payload without a line feed, CRLF and anything give the payload without the `+` |
| AuthenticateLine.IntendedNeedsPlus | src/parse.rs:10-17 | with the plus sign escaped, every line not starting with `+` is the Authentication error carrying it, and `+abc123` CRLF gives `abc123` |

## Left out

- The zero-copy ownership wrapper (`ZeroCopy`, the `unsafe` lifetime extension) is not modelled: the answers are plain values.
- `imap_proto::parse_response` is a parameter, not a model of the IMAP grammar. The only assumption made of it is that a parsed record leaves strictly fewer bytes. Its "incomplete" and "error" results are one `NotParsed` case, because every caller treats them alike.
- `resp.into()` (turning an unexpected record into an error) is modelled as `Unexpected(record)`; the error type's conversion is not part of this model.
- The `regex` crate is not modelled as an engine. Each of the two patterns is replaced by the language it accepts. In the SEARCH pattern, `\s` and `str::trim` both mean the Unicode White_Space characters. The case-insensitive `S` also matches U+017F (long s), which simple case folding maps to `s`.
- The AUTHENTICATE pattern `^+(.*)\r\n` is modelled as the `regex` crate reads it: the `+` repeats the `^` anchor and matches no character.
- The `delimiter` of a `Name` (and of the LIST/LSUB record it is copied from) is modelled as `Option<string>`, which also admits a server that reports no delimiter. The source's test at src/parse.rs:273 compares `delimiter()` with `"."` directly; the record type is defined in `imap_proto`, which is not part of this model. The copy itself is verbatim either way.
- `HashSet<String>` is modelled as `set<string>`; hashing and iteration order are not modelled.
- The `unreachable!()` panic in `parse_mailbox` is modelled as the outcome `Unreachable(status)` instead of aborting.
- `to_string()` copies and `Vec` allocation are not modelled.
- Fetches.ClassifyFetch: the classifier handed to the walker uses the function `FetchOf` rather than the method `BuildFetch`, because a Dafny function value cannot call a method; `BuildFetch` is proved to compute `FetchOf`.
- The `Ignore` variant of `MapOrNot` is modelled and skipped as the code does, though no caller in the file produces it.
- `Capabilities`, `Name`, `Fetch` and `Mailbox` accessors defined outside `src/parse.rs` are not part of this model.

## Findings

| source | as written | input that shows it | evidently intended | confidence | as-written member | corrected member |
|---|---|---|---|---|---|---|
| src/parse.rs:10 | `^+(.*)\r\n`: the `+` repeats the start anchor, so any line ending its first line in CRLF is accepted and the payload keeps the leading `+` | `+abc123` CRLF gives `+abc123`; `abc123` CRLF without `+` is accepted | `^\+(.*)\r\n`: the line must start with the continuation marker `+`, and the payload is the text after it | medium, not executed | AuthenticateLine.PlusIsKept | AuthenticateLine.IntendedNeedsPlus |
