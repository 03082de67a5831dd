/** `parse_mailbox`: the answer to SELECT and EXAMINE (section 6.3.1 of RFC
    3501). Its own loop folds every record into one Mailbox: the untagged OK
    lines with their response codes (section 7.1) and the mailbox data. */
module MailboxFold {
  import opened ImapTypes
  import opened Folds
  import opened RecordStream

  /** How `parse_mailbox` ends: with the mailbox, with an error, or at the
      `unreachable!()` a status line with another marker than OK reaches. That
      last one is a fault of the program, not an answer it gives. */
  datatype MailboxOutcome =
    | MailboxOk(mailbox: Mailbox)
    | MailboxErr(error: Error)
    | Unreachable(status: Status)

  /** What each record offers to each field of the Mailbox. */
  function FlagsOf(r: Response): seq<string> {
    if r.MailboxData? && r.datum.FlagList? then r.datum.flags else []
  }

  function ExistsOf(r: Response): Option<u32> {
    if r.MailboxData? && r.datum.Exists? then Some(r.datum.count) else None
  }

  function RecentOf(r: Response): Option<u32> {
    if r.MailboxData? && r.datum.Recent? then Some(r.datum.count) else None
  }

  function UnseenOf(r: Response): Option<u32> {
    if r.Data? && r.code.Some? && r.code.value.Unseen? then Some(r.code.value.unseen) else None
  }

  function PermanentFlagsOf(r: Response): seq<string> {
    if r.Data? && r.code.Some? && r.code.value.PermanentFlags? then r.code.value.permanentFlags else []
  }

  function UidNextOf(r: Response): Option<u32> {
    if r.Data? && r.code.Some? && r.code.value.UidNext? then Some(r.code.value.uidNext) else None
  }

  function UidValidityOf(r: Response): Option<u32> {
    if r.Data? && r.code.Some? && r.code.value.UidValidity? then Some(r.code.value.uidValidity) else None
  }

  function CountOr(o: Option<u32>, default: u32): u32 {
    if o.Some? then o.value else default
  }

  /** The Mailbox the records describe, starting from the default one: the
      flag lists appended in order, every other field set by the last record
      that carries it. */
  function MailboxOf(rs: seq<Response>): Mailbox {
    Mailbox(
      Concat(rs, FlagsOf),
      CountOr(Last(rs, ExistsOf), DefaultMailbox.existsCount),
      CountOr(Last(rs, RecentOf), DefaultMailbox.recentCount),
      Last(rs, UnseenOf),
      Concat(rs, PermanentFlagsOf),
      Last(rs, UidNextOf),
      Last(rs, UidValidityOf))
  }

  /** A record the fold cannot take: anything but an OK status line or mailbox data. */
  predicate StopsFold(r: Response) {
    !((r.Data? && r.status == OK) || r.MailboxData?)
  }

  /** What folding a record stream gives: at the first record the fold cannot
      take, the fault (a status line) or an error (anything else); else the
      bytes left over (none when the buffer was empty); else the Mailbox. */
  function SelectOutcome(s: Records): MailboxOutcome {
    var i := FirstWhere(s.records, StopsFold);
    if i < |s.records| then
      if s.records[i].Data? then Unreachable(s.records[i].status)
      else MailboxErr(Unexpected(s.records[i]))
    else if |s.records| == 0 || s.tail.Stuck? then MailboxErr(Invalid(Remainder(s.tail)))
    else MailboxOk(MailboxOf(s.records))
  }

  lemma SelectAccepted(s: Records)
    requires s.tail == Exhausted && |s.records| > 0
    requires forall k :: 0 <= k < |s.records| ==> !StopsFold(s.records[k])
    ensures SelectOutcome(s) == MailboxOk(MailboxOf(s.records))
  {
    FirstWhereUnique(s.records, StopsFold, |s.records|);
  }

  lemma SelectStopsAt(s: Records, seen: seq<Response>, r: Response, later: seq<Response>)
    requires s.records == seen + [r] + later
    requires forall k :: 0 <= k < |seen| ==> !StopsFold(seen[k])
    requires StopsFold(r)
    ensures SelectOutcome(s) == if r.Data? then Unreachable(r.status) else MailboxErr(Unexpected(r))
  {
    assert s.records[|seen|] == r;
    forall k | 0 <= k < |seen| ensures !StopsFold(s.records[k]) {
      assert s.records[k] == seen[k];
    }
    FirstWhereUnique(s.records, StopsFold, |seen|);
  }

  lemma SelectStuck(s: Records)
    requires |s.records| == 0 || s.tail.Stuck?
    requires forall k :: 0 <= k < |s.records| ==> !StopsFold(s.records[k])
    ensures SelectOutcome(s) == MailboxErr(Invalid(Remainder(s.tail)))
  {
    FirstWhereUnique(s.records, StopsFold, |s.records|);
  }

  /** One more record changes each field as the record offers. */
  lemma MailboxSnoc(rs: seq<Response>, r: Response)
    ensures var m, m' := MailboxOf(rs), MailboxOf(rs + [r]);
      && m'.flags == m.flags + FlagsOf(r)
      && m'.existsCount == CountOr(ExistsOf(r), m.existsCount)
      && m'.recentCount == CountOr(RecentOf(r), m.recentCount)
      && m'.unseen == (if UnseenOf(r).Some? then UnseenOf(r) else m.unseen)
      && m'.permanentFlags == m.permanentFlags + PermanentFlagsOf(r)
      && m'.uidNext == (if UidNextOf(r).Some? then UidNextOf(r) else m.uidNext)
      && m'.uidValidity == (if UidValidityOf(r).Some? then UidValidityOf(r) else m.uidValidity)
  {
    assert (rs + [r])[..|rs|] == rs;
    assert (rs + [r])[|rs|] == r;
  }

  /** Folds one record the fold can take into the Mailbox built so far. */
  method FoldRecord(mailbox: Mailbox, resp: Response, ghost seen: seq<Response>) returns (next: Mailbox)
    requires mailbox == MailboxOf(seen)
    requires !StopsFold(resp)
    ensures next == MailboxOf(seen + [resp])
  {
    MailboxSnoc(seen, resp);
    assert mailbox.flags + [] == mailbox.flags;
    assert mailbox.permanentFlags + [] == mailbox.permanentFlags;
    next := mailbox;
    if resp.Data? {
      match resp.code {
        case Some(UidValidity(uid)) =>
          next := next.(uidValidity := Some(uid));
        case Some(UidNext(unext)) =>
          next := next.(uidNext := Some(unext));
        case Some(Unseen(n)) =>
          next := next.(unseen := Some(n));
        case Some(PermanentFlags(flags)) =>
          next := next.(permanentFlags := next.permanentFlags + flags);
        case _ =>
      }
    } else {
      match resp.datum {
        case MailboxStatus(_, _) =>
        case Exists(e) =>
          next := next.(existsCount := e);
        case Recent(n) =>
          next := next.(recentCount := n);
        case FlagList(flags) =>
          next := next.(flags := next.flags + flags);
        case List(_, _, _) =>
        case SubList(_, _, _) =>
      }
    }
  }

  /** The loop stops at bytes the tokenizer cannot read. */
  lemma StuckOutcome(tok: Tokenizer, rest: Bytes, seen: seq<Response>, whole: Records)
    requires whole.records == seen + Tokenize(tok, rest).records
    requires whole.tail == Tokenize(tok, rest).tail
    requires forall k :: 0 <= k < |seen| ==> !StopsFold(seen[k])
    requires |rest| == 0 ==> seen == []
    requires tok(rest).NotParsed?
    ensures SelectOutcome(whole) == MailboxErr(Invalid(rest))
  {
    TokenizeEnd(tok, rest, seen, whole);
    SelectStuck(whole);
  }

  /** The loop stops at a record the fold cannot take. */
  lemma StopOutcome(tok: Tokenizer, rest: Bytes, seen: seq<Response>, whole: Records)
    requires whole.records == seen + Tokenize(tok, rest).records
    requires whole.tail == Tokenize(tok, rest).tail
    requires forall k :: 0 <= k < |seen| ==> !StopsFold(seen[k])
    requires |rest| > 0 && tok(rest).Parsed? && StopsFold(tok(rest).resp)
    ensures var r := tok(rest).resp;
      SelectOutcome(whole) == if r.Data? then Unreachable(r.status) else MailboxErr(Unexpected(r))
  {
    TokenizeStep(tok, rest, seen, whole);
    SelectStopsAt(whole, seen, tok(rest).resp, Tokenize(tok, tok(rest).rest).records);
  }

  /** The loop stops with the whole buffer folded. */
  lemma FoldedOutcome(tok: Tokenizer, seen: seq<Response>, whole: Records, mailbox: Mailbox)
    requires whole.records == seen + Tokenize(tok, []).records
    requires whole.tail == Tokenize(tok, []).tail
    requires forall k :: 0 <= k < |seen| ==> !StopsFold(seen[k])
    requires |seen| > 0 && mailbox == MailboxOf(seen)
    ensures SelectOutcome(whole) == MailboxOk(mailbox)
  {
    TokenizeEnd(tok, [], seen, whole);
    SelectAccepted(whole);
  }

  /** Reads records and folds each into the Mailbox until one leaves the
      buffer empty. */
  method ParseMailbox(tok: Tokenizer, lines: Bytes) returns (r: MailboxOutcome)
    ensures r == SelectOutcome(Tokenize(tok, lines))
  {
    ghost var whole := Tokenize(tok, lines);
    var rest := lines;
    var mailbox := DefaultMailbox;
    assert MailboxOf([]) == DefaultMailbox;
    ghost var seen: seq<Response> := [];
    while true
      invariant whole.records == seen + Tokenize(tok, rest).records
      invariant whole.tail == Tokenize(tok, rest).tail
      invariant forall k :: 0 <= k < |seen| ==> !StopsFold(seen[k])
      invariant mailbox == MailboxOf(seen)
      invariant |rest| == 0 ==> seen == []
      decreases |rest|
    {
      var step := tok(rest);
      if step.NotParsed? {
        StuckOutcome(tok, rest, seen, whole);
        return MailboxErr(Invalid(rest));
      }
      var resp := step.resp;
      if StopsFold(resp) {
        StopOutcome(tok, rest, seen, whole);
        if resp.Data? {
          return Unreachable(resp.status);
        }
        return MailboxErr(Unexpected(resp));
      }
      TokenizeStep(tok, rest, seen, whole);
      rest := step.rest;
      mailbox := FoldRecord(mailbox, resp, seen);
      seen := seen + [resp];
      if |rest| == 0 {
        FoldedOutcome(tok, seen, whole, mailbox);
        return MailboxOk(mailbox);
      }
    }
  }

  /** The fold succeeds exactly when the buffer holds at least one record,
      every record is an OK status line or mailbox data, and the tokenizer
      reads the buffer to its end; the Mailbox is then the one they describe. */
  lemma SelectSucceedsIff(s: Records)
    ensures SelectOutcome(s).MailboxOk? <==>
      (|s.records| > 0 && s.tail == Exhausted && forall k :: 0 <= k < |s.records| ==> !StopsFold(s.records[k]))
    ensures SelectOutcome(s).MailboxOk? ==> SelectOutcome(s).mailbox == MailboxOf(s.records)
  {
    var i := FirstWhere(s.records, StopsFold);
    if i == |s.records| {
      FirstWhereUnique(s.records, StopsFold, i);
    }
  }

  /** Last-wins: the last record that carries EXISTS, RECENT, UNSEEN, UIDNEXT
      or UIDVALIDITY sets that field. */
  lemma MailboxLastWins(rs: seq<Response>, j: nat)
    requires j < |rs|
    ensures ExistsOf(rs[j]).Some? && (forall k :: j < k < |rs| ==> ExistsOf(rs[k]) == None) ==>
      MailboxOf(rs).existsCount == ExistsOf(rs[j]).value
    ensures RecentOf(rs[j]).Some? && (forall k :: j < k < |rs| ==> RecentOf(rs[k]) == None) ==>
      MailboxOf(rs).recentCount == RecentOf(rs[j]).value
    ensures UnseenOf(rs[j]).Some? && (forall k :: j < k < |rs| ==> UnseenOf(rs[k]) == None) ==>
      MailboxOf(rs).unseen == UnseenOf(rs[j])
    ensures UidNextOf(rs[j]).Some? && (forall k :: j < k < |rs| ==> UidNextOf(rs[k]) == None) ==>
      MailboxOf(rs).uidNext == UidNextOf(rs[j])
    ensures UidValidityOf(rs[j]).Some? && (forall k :: j < k < |rs| ==> UidValidityOf(rs[k]) == None) ==>
      MailboxOf(rs).uidValidity == UidValidityOf(rs[j])
  {
    if ExistsOf(rs[j]).Some? {
      LastIsLatest(rs, ExistsOf, ExistsOf(rs[j]).value);
    }
    if RecentOf(rs[j]).Some? {
      LastIsLatest(rs, RecentOf, RecentOf(rs[j]).value);
    }
    if UnseenOf(rs[j]).Some? {
      LastIsLatest(rs, UnseenOf, UnseenOf(rs[j]).value);
    }
    if UidNextOf(rs[j]).Some? {
      LastIsLatest(rs, UidNextOf, UidNextOf(rs[j]).value);
    }
    if UidValidityOf(rs[j]).Some? {
      LastIsLatest(rs, UidValidityOf, UidValidityOf(rs[j]).value);
    }
  }

  /** A field no record sets keeps its value in the default Mailbox. */
  lemma MailboxUntouched(rs: seq<Response>)
    ensures (forall k :: 0 <= k < |rs| ==> ExistsOf(rs[k]) == None) ==> MailboxOf(rs).existsCount == 0
    ensures (forall k :: 0 <= k < |rs| ==> RecentOf(rs[k]) == None) ==> MailboxOf(rs).recentCount == 0
    ensures (forall k :: 0 <= k < |rs| ==> UnseenOf(rs[k]) == None) ==> MailboxOf(rs).unseen == None
    ensures (forall k :: 0 <= k < |rs| ==> UidNextOf(rs[k]) == None) ==> MailboxOf(rs).uidNext == None
    ensures (forall k :: 0 <= k < |rs| ==> UidValidityOf(rs[k]) == None) ==> MailboxOf(rs).uidValidity == None
  {
    LastAbsent(rs, ExistsOf);
    LastAbsent(rs, RecentOf);
    LastAbsent(rs, UnseenOf);
    LastAbsent(rs, UidNextOf);
    LastAbsent(rs, UidValidityOf);
  }

  /** FLAGS and PERMANENTFLAGS extend: the lists of a split record stream are
      those of its first part followed by those of its second. */
  lemma MailboxFlagsExtend(xs: seq<Response>, ys: seq<Response>)
    ensures MailboxOf(xs + ys).flags == MailboxOf(xs).flags + MailboxOf(ys).flags
    ensures MailboxOf(xs + ys).permanentFlags == MailboxOf(xs).permanentFlags + MailboxOf(ys).permanentFlags
  {
    ConcatAppend(xs, ys, FlagsOf);
    ConcatAppend(xs, ys, PermanentFlagsOf);
  }

  /** A STATUS, LIST or LSUB record, or a status line without one of the four
      response codes the fold reads, leaves the Mailbox as it was. */
  lemma MailboxNeutral(rs: seq<Response>, r: Response)
    requires
      || (r.MailboxData? && (r.datum.MailboxStatus? || r.datum.List? || r.datum.SubList?))
      || (r.Data? && (r.code.None? || !(r.code.value.UidValidity? || r.code.value.UidNext? ||
                                        r.code.value.Unseen? || r.code.value.PermanentFlags?)))
    ensures MailboxOf(rs + [r]) == MailboxOf(rs)
  {
    MailboxSnoc(rs, r);
    assert MailboxOf(rs).flags + [] == MailboxOf(rs).flags;
    assert MailboxOf(rs).permanentFlags + [] == MailboxOf(rs).permanentFlags;
  }

  /** The first record decides failure: bytes the tokenizer cannot read (an
      empty buffer among them), a status line other than OK, or a record that
      is neither a status line nor mailbox data. */
  lemma SelectFirstRecord(tok: Tokenizer, lines: Bytes)
    ensures tok(lines).NotParsed? ==> SelectOutcome(Tokenize(tok, lines)) == MailboxErr(Invalid(lines))
    ensures tok(lines).Parsed? && tok(lines).resp.Data? && tok(lines).resp.status != OK ==>
      SelectOutcome(Tokenize(tok, lines)) == Unreachable(tok(lines).resp.status)
    ensures tok(lines).Parsed? && !tok(lines).resp.Data? && !tok(lines).resp.MailboxData? ==>
      SelectOutcome(Tokenize(tok, lines)) == MailboxErr(Unexpected(tok(lines).resp))
  {
    if tok(lines).NotParsed? {
      StuckOutcome(tok, lines, [], Tokenize(tok, lines));
    } else if StopsFold(tok(lines).resp) {
      assert |tok(lines).rest| < |lines|;
      StopOutcome(tok, lines, [], Tokenize(tok, lines));
    }
  }

  /** A SELECT answer of `* FLAGS (\Seen)`, `* 3 EXISTS` and
      `* OK [UIDVALIDITY 7]` gives those three values and defaults elsewhere. */
  lemma SelectExample(tok: Tokenizer, b0: Bytes, b1: Bytes, b2: Bytes)
    requires tok(b0) == Parsed(b1, MailboxData(FlagList(["\\Seen"])))
    requires tok(b1) == Parsed(b2, MailboxData(Exists(3)))
    requires tok(b2) == Parsed([], Data(OK, Some(UidValidity(7)), None))
    ensures SelectOutcome(Tokenize(tok, b0)) ==
      MailboxOk(Mailbox(["\\Seen"], 3, 0, None, [], None, Some(7)))
  {
    var r0, r1, r2 := MailboxData(FlagList(["\\Seen"])), MailboxData(Exists(3)), Data(OK, Some(UidValidity(7)), None);
    var rs := [r0, r1, r2];
    var s := Tokenize(tok, b0);
    assert s.records == rs && s.tail == Exhausted by {
      TokenizeTwo(tok, b1, b2, r1, r2);
      assert |tok(b0).rest| < |b0|;
    }
    assert SelectOutcome(s) == MailboxOk(MailboxOf(rs)) by {
      assert !StopsFold(rs[0]) && !StopsFold(rs[1]) && !StopsFold(rs[2]);
      SelectSucceedsIff(s);
    }
    ExampleFold(r0, r1, r2);
  }

  /** The mailbox the three records of SelectExample build. */
  lemma ExampleFold(r0: Response, r1: Response, r2: Response)
    requires r0 == MailboxData(FlagList(["\\Seen"])) && r1 == MailboxData(Exists(3))
    requires r2 == Data(OK, Some(UidValidity(7)), None)
    ensures MailboxOf([r0, r1, r2]) == Mailbox(["\\Seen"], 3, 0, None, [], None, Some(7))
  {
    assert MailboxOf([r0]) == Mailbox(["\\Seen"], 0, 0, None, [], None, None) by {
      MailboxSnoc([], r0);
      assert [] + [r0] == [r0];
    }
    assert MailboxOf([r0, r1]) == Mailbox(["\\Seen"], 3, 0, None, [], None, None) by {
      MailboxSnoc([r0], r1);
      assert [r0] + [r1] == [r0, r1];
    }
    MailboxSnoc([r0, r1], r2);
    assert [r0, r1] + [r2] == [r0, r1, r2];
  }
}
