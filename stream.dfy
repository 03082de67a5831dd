/** The response tokenizer (imap_proto::parse_response) is not part of this
    model: it is a parameter. A step either yields one record and the bytes
    after it, or reports that the bytes cannot be read. The one thing the loops
    rely on is progress: a record always consumes at least one byte. */
module RecordStream {
  import opened ImapTypes

  datatype Step = Parsed(rest: Bytes, resp: Response) | NotParsed

  ghost predicate Progress(tok: Bytes -> Step) {
    forall b :: tok(b).Parsed? ==> |tok(b).rest| < |b|
  }

  function ReadsNothing(b: Bytes): Step { NotParsed }

  type Tokenizer = tok: Bytes -> Step | Progress(tok) witness ReadsNothing

  /** How the record stream of a buffer ends: the whole buffer was read, or the
      tokenizer stopped at a non-empty remainder it cannot read. */
  datatype Tail = Exhausted | Stuck(rest: Bytes)

  datatype Records = Records(records: seq<Response>, tail: Tail)

  /** The bytes a loop is left holding when the stream ends. */
  function Remainder(t: Tail): Bytes {
    if t.Stuck? then t.rest else []
  }

  /** The records a buffer holds, read one after the other, up to its end or
      to the first bytes the tokenizer cannot read. */
  function Tokenize(tok: Tokenizer, b: Bytes): Records
    decreases |b|
  {
    if |b| == 0 then Records([], Exhausted)
    else match tok(b)
      case NotParsed => Records([], Stuck(b))
      case Parsed(rest, resp) =>
        var s := Tokenize(tok, rest);
        Records([resp] + s.records, s.tail)
  }

  /** Reading one record off a non-empty buffer moves it from the stream of
      what is left to the records already seen. */
  lemma TokenizeStep(tok: Tokenizer, b: Bytes, seen: seq<Response>, whole: Records)
    requires whole.records == seen + Tokenize(tok, b).records
    requires whole.tail == Tokenize(tok, b).tail
    requires |b| > 0 && tok(b).Parsed?
    ensures whole.records == seen + [tok(b).resp] + Tokenize(tok, tok(b).rest).records
    ensures whole.tail == Tokenize(tok, tok(b).rest).tail
  {
    var step := tok(b);
    var after := Tokenize(tok, step.rest);
    assert Tokenize(tok, b) == Records([step.resp] + after.records, after.tail);
    assert seen + ([step.resp] + after.records) == seen + [step.resp] + after.records;
  }

  /** The stream of what is left ends where the loop stops. */
  lemma TokenizeEnd(tok: Tokenizer, b: Bytes, seen: seq<Response>, whole: Records)
    requires whole.records == seen + Tokenize(tok, b).records
    requires whole.tail == Tokenize(tok, b).tail
    requires |b| == 0 || tok(b).NotParsed?
    ensures whole.records == seen
    ensures whole.tail == if |b| == 0 then Exhausted else Stuck(b)
  {
    assert seen + [] == seen;
  }

  /** A buffer holding exactly one record. */
  lemma TokenizeOne(tok: Tokenizer, b: Bytes, r: Response)
    requires tok(b) == Parsed([], r)
    ensures Tokenize(tok, b) == Records([r], Exhausted)
  {
    assert |tok(b).rest| < |b|;
    assert Tokenize(tok, []) == Records([], Exhausted);
  }

  /** A buffer holding exactly two records. */
  lemma TokenizeTwo(tok: Tokenizer, b: Bytes, rest: Bytes, r1: Response, r2: Response)
    requires tok(b) == Parsed(rest, r1)
    requires tok(rest) == Parsed([], r2)
    ensures Tokenize(tok, b) == Records([r1, r2], Exhausted)
  {
    assert |tok(b).rest| < |b|;
    TokenizeOne(tok, rest, r2);
    assert [r1] + [r2] == [r1, r2];
  }
}
