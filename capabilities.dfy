/** `parse_capabilities`: the answer to CAPABILITY (section 7.2.1 of RFC 3501).
    It does not use the walker: it has its own loop, which accepts nothing but
    CAPABILITY records and merges their names into one set. */
module CapabilityFold {
  import opened ImapTypes
  import opened Folds
  import opened RecordStream

  /** The names every CAPABILITY record among `rs` lists. */
  function CapsOf(rs: seq<Response>): set<string>
    decreases |rs|
  {
    if |rs| == 0 then {}
    else CapsOf(rs[..|rs| - 1]) + NamesIn(rs[|rs| - 1])
  }

  function NamesIn(r: Response): set<string> {
    if r.Capabilities? then set c | c in r.caps else {}
  }

  predicate NotCapabilities(r: Response) {
    !r.Capabilities?
  }

  /** What reading a record stream for capabilities gives: the first record
      that is not CAPABILITY, else the bytes left over (none when the buffer
      was empty), else the merged names. */
  function CapabilitiesOf(s: Records): Result<CapabilitySet> {
    var i := FirstWhere(s.records, NotCapabilities);
    if i < |s.records| then Err(Unexpected(s.records[i]))
    else if |s.records| == 0 || s.tail.Stuck? then Err(Invalid(Remainder(s.tail)))
    else Ok(CapabilitySet(CapsOf(s.records)))
  }

  /** Membership, case-sensitive: a name is in the set exactly when some
      CAPABILITY record lists it, however the names are spread or repeated. */
  lemma {:induction false} CapsMembership(rs: seq<Response>, c: string)
    ensures c in CapsOf(rs) <==> exists i :: 0 <= i < |rs| && rs[i].Capabilities? && c in rs[i].caps
    decreases |rs|
  {
    if |rs| > 0 {
      var n := |rs| - 1;
      CapsMembership(rs[..n], c);
      if c in CapsOf(rs[..n]) {
        var i :| 0 <= i < n && rs[..n][i].Capabilities? && c in rs[..n][i].caps;
        assert rs[i] == rs[..n][i];
      }
      if exists i :: 0 <= i < |rs| && rs[i].Capabilities? && c in rs[i].caps {
        var i :| 0 <= i < |rs| && rs[i].Capabilities? && c in rs[i].caps;
        if i < n {
          assert rs[..n][i] == rs[i];
        }
      }
    }
  }

  lemma CapabilitiesAccepted(s: Records)
    requires s.tail == Exhausted && |s.records| > 0
    requires forall k :: 0 <= k < |s.records| ==> s.records[k].Capabilities?
    ensures CapabilitiesOf(s) == Ok(CapabilitySet(CapsOf(s.records)))
  {
    FirstWhereUnique(s.records, NotCapabilities, |s.records|);
  }

  lemma CapabilitiesStopAt(s: Records, seen: seq<Response>, r: Response, later: seq<Response>)
    requires s.records == seen + [r] + later
    requires forall k :: 0 <= k < |seen| ==> seen[k].Capabilities?
    requires !r.Capabilities?
    ensures CapabilitiesOf(s) == Err(Unexpected(r))
  {
    assert s.records[|seen|] == r;
    forall k | 0 <= k < |seen| ensures !NotCapabilities(s.records[k]) {
      assert s.records[k] == seen[k];
    }
    FirstWhereUnique(s.records, NotCapabilities, |seen|);
  }

  lemma CapabilitiesStuck(s: Records)
    requires |s.records| == 0 || s.tail.Stuck?
    requires forall k :: 0 <= k < |s.records| ==> s.records[k].Capabilities?
    ensures CapabilitiesOf(s) == Err(Invalid(Remainder(s.tail)))
  {
    FirstWhereUnique(s.records, NotCapabilities, |s.records|);
  }

  lemma CapsSnoc(rs: seq<Response>, r: Response)
    ensures CapsOf(rs + [r]) == CapsOf(rs) + NamesIn(r)
  {
    assert (rs + [r])[..|rs|] == rs;
  }

  /** The loop stops at bytes the tokenizer cannot read. */
  lemma CapsStuckOutcome(tok: Tokenizer, rest: Bytes, seen: seq<Response>, whole: Records)
    requires whole.records == seen + Tokenize(tok, rest).records
    requires whole.tail == Tokenize(tok, rest).tail
    requires forall k :: 0 <= k < |seen| ==> seen[k].Capabilities?
    requires |rest| == 0 ==> seen == []
    requires tok(rest).NotParsed?
    ensures CapabilitiesOf(whole) == Err(Invalid(rest))
  {
    TokenizeEnd(tok, rest, seen, whole);
    CapabilitiesStuck(whole);
  }

  /** The loop stops at a record of another kind. */
  lemma CapsStopOutcome(tok: Tokenizer, rest: Bytes, seen: seq<Response>, whole: Records)
    requires whole.records == seen + Tokenize(tok, rest).records
    requires whole.tail == Tokenize(tok, rest).tail
    requires forall k :: 0 <= k < |seen| ==> seen[k].Capabilities?
    requires |rest| > 0 && tok(rest).Parsed? && !tok(rest).resp.Capabilities?
    ensures CapabilitiesOf(whole) == Err(Unexpected(tok(rest).resp))
  {
    TokenizeStep(tok, rest, seen, whole);
    CapabilitiesStopAt(whole, seen, tok(rest).resp, Tokenize(tok, tok(rest).rest).records);
  }

  /** One more CAPABILITY record moves from the stream to the records seen. */
  lemma CapsStep(tok: Tokenizer, rest: Bytes, seen: seq<Response>, whole: Records)
    requires whole.records == seen + Tokenize(tok, rest).records
    requires whole.tail == Tokenize(tok, rest).tail
    requires |rest| > 0 && tok(rest).Parsed?
    ensures whole.records == (seen + [tok(rest).resp]) + Tokenize(tok, tok(rest).rest).records
    ensures whole.tail == Tokenize(tok, tok(rest).rest).tail
    ensures CapsOf(seen + [tok(rest).resp]) == CapsOf(seen) + NamesIn(tok(rest).resp)
  {
    TokenizeStep(tok, rest, seen, whole);
    CapsSnoc(seen, tok(rest).resp);
  }

  /** The loop stops with the whole buffer read. */
  lemma CapsAcceptedOutcome(tok: Tokenizer, seen: seq<Response>, whole: Records)
    requires whole.records == seen + Tokenize(tok, []).records
    requires whole.tail == Tokenize(tok, []).tail
    requires forall k :: 0 <= k < |seen| ==> seen[k].Capabilities?
    requires |seen| > 0
    ensures CapabilitiesOf(whole) == Ok(CapabilitySet(CapsOf(seen)))
  {
    TokenizeEnd(tok, [], seen, whole);
    CapabilitiesAccepted(whole);
  }

  /** Reads CAPABILITY records until one of them leaves the buffer empty. */
  method ParseCapabilities(tok: Tokenizer, lines: Bytes) returns (r: Result<CapabilitySet>)
    ensures r == CapabilitiesOf(Tokenize(tok, lines))
  {
    ghost var whole := Tokenize(tok, lines);
    var rest := lines;
    var caps: set<string> := {};
    ghost var seen: seq<Response> := [];
    while true
      invariant whole.records == seen + Tokenize(tok, rest).records
      invariant whole.tail == Tokenize(tok, rest).tail
      invariant forall k :: 0 <= k < |seen| ==> seen[k].Capabilities?
      invariant caps == CapsOf(seen)
      invariant |rest| == 0 ==> seen == []
      decreases |rest|
    {
      var step := tok(rest);
      if step.NotParsed? {
        CapsStuckOutcome(tok, rest, seen, whole);
        return Err(Invalid(rest));
      }
      if !step.resp.Capabilities? {
        CapsStopOutcome(tok, rest, seen, whole);
        return Err(Unexpected(step.resp));
      }
      CapsStep(tok, rest, seen, whole);
      rest := step.rest;
      caps := caps + set c | c in step.resp.caps;
      seen := seen + [step.resp];
      if |rest| == 0 {
        CapsAcceptedOutcome(tok, seen, whole);
        return Ok(CapabilitySet(caps));
      }
    }
  }

  /** `* CAPABILITY IMAP4rev1 STARTTLS AUTH=GSSAPI LOGINDISABLED` gives exactly
      those four names. */
  lemma FourCapabilities(tok: Tokenizer, lines: Bytes)
    requires tok(lines) == Parsed([], Capabilities(["IMAP4rev1", "STARTTLS", "AUTH=GSSAPI", "LOGINDISABLED"]))
    ensures CapabilitiesOf(Tokenize(tok, lines)) ==
      Ok(CapabilitySet({"IMAP4rev1", "STARTTLS", "AUTH=GSSAPI", "LOGINDISABLED"}))
  {
    var names := ["IMAP4rev1", "STARTTLS", "AUTH=GSSAPI", "LOGINDISABLED"];
    var r := Capabilities(names);
    TokenizeOne(tok, lines, r);
    CapabilitiesAccepted(Records([r], Exhausted));
    assert [r][..0] == [];
    assert CapsOf([r]) == NamesIn(r);
    assert NamesIn(r) == {"IMAP4rev1", "STARTTLS", "AUTH=GSSAPI", "LOGINDISABLED"} by {
      forall c | c in NamesIn(r) ensures c in {"IMAP4rev1", "STARTTLS", "AUTH=GSSAPI", "LOGINDISABLED"} {
        var i :| 0 <= i < 4 && names[i] == c;
      }
      assert names[0] in NamesIn(r) && names[1] in NamesIn(r) && names[2] in NamesIn(r) && names[3] in NamesIn(r);
    }
  }

  /** The call succeeds exactly when the buffer holds at least one record,
      every record is CAPABILITY and the last one ends the buffer; the answer
      then holds the names those records list. */
  lemma CapabilitiesSucceedIff(s: Records)
    ensures CapabilitiesOf(s).Ok? <==>
      (|s.records| > 0 && s.tail == Exhausted && forall k :: 0 <= k < |s.records| ==> s.records[k].Capabilities?)
    ensures CapabilitiesOf(s).Ok? ==> CapabilitiesOf(s).value == CapabilitySet(CapsOf(s.records))
  {
    var i := FirstWhere(s.records, NotCapabilities);
    if i < |s.records| {
      assert !s.records[i].Capabilities?;
    }
  }

  /** The first record decides failure: bytes the tokenizer cannot read (an
      empty buffer among them) or a record of another kind, such as one that
      begins `* JUNK`, make the whole call fail. */
  lemma FirstRecordDecides(tok: Tokenizer, lines: Bytes)
    ensures tok(lines).NotParsed? ==> CapabilitiesOf(Tokenize(tok, lines)) == Err(Invalid(lines))
    ensures tok(lines).Parsed? && !tok(lines).resp.Capabilities? ==>
      CapabilitiesOf(Tokenize(tok, lines)) == Err(Unexpected(tok(lines).resp))
  {
    if tok(lines).NotParsed? {
      CapabilitiesStuck(Tokenize(tok, lines));
    } else {
      assert |tok(lines).rest| < |lines|;
      if !tok(lines).resp.Capabilities? {
        var later := Tokenize(tok, tok(lines).rest).records;
        assert Tokenize(tok, lines).records == [] + [tok(lines).resp] + later;
        CapabilitiesStopAt(Tokenize(tok, lines), [], tok(lines).resp, later);
      }
    }
  }
}
