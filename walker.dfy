/** The generic response walker (`parse_many`) and the unilateral-response rule
    of section 7 of RFC 3501. */
module Walker {
  import opened ImapTypes
  import opened Folds
  import opened RecordStream

  /** What a classifier says of one record: a value for the answer, a record
      it does not want (handed back, possibly changed), or nothing. */
  datatype MapOrNot<T> = Map(value: T) | Not(resp: Response) | Ignore

  /** The records a server may send at any time: RECENT and EXISTS counts,
      FETCH pushes and EXPUNGE notices. */
  predicate IsUnilateral(r: Response) {
    || (r.MailboxData? && (r.datum.Recent? || r.datum.Exists?))
    || r.Fetch?
    || r.Expunge?
  }

  /** A record that stops the walk: the classifier does not want it and what it
      hands back is not a unilateral response. */
  predicate Rejects<T>(classify: Response -> MapOrNot<T>, r: Response) {
    classify(r).Not? && !IsUnilateral(classify(r).resp)
  }

  function Rejected<T>(classify: Response -> MapOrNot<T>): Response -> bool {
    r => Rejects(classify, r)
  }

  /** The values the classifier makes of the records, in record order. */
  function Mapped<T>(classify: Response -> MapOrNot<T>, rs: seq<Response>): seq<T>
    decreases |rs|
  {
    if |rs| == 0 then [] else Mapped(classify, rs[..|rs| - 1]) + MappedOne(classify, rs[|rs| - 1])
  }

  function MappedOne<T>(classify: Response -> MapOrNot<T>, r: Response): seq<T> {
    if classify(r).Map? then [classify(r).value] else []
  }

  lemma MappedSnoc<T>(classify: Response -> MapOrNot<T>, rs: seq<Response>, r: Response)
    ensures Mapped(classify, rs + [r]) == Mapped(classify, rs) + MappedOne(classify, r)
  {
    assert (rs + [r])[..|rs|] == rs;
  }

  /** What walking a record stream gives: the first record that stops the walk,
      else bytes the tokenizer could not read, else every mapped value. */
  function Walk<T>(classify: Response -> MapOrNot<T>, s: Records): Result<seq<T>> {
    var i := FirstWhere(s.records, Rejected(classify));
    if i < |s.records| then Err(Unexpected(classify(s.records[i]).resp))
    else if s.tail.Stuck? then Err(Invalid(s.tail.rest))
    else Ok(Mapped(classify, s.records))
  }

  /** The walk ends: every record was read and none stopped it. */
  lemma WalkAccepts<T>(classify: Response -> MapOrNot<T>, s: Records)
    requires s.tail == Exhausted
    requires forall k :: 0 <= k < |s.records| ==> !Rejects(classify, s.records[k])
    ensures Walk(classify, s) == Ok(Mapped(classify, s.records))
  {
    FirstWhereUnique(s.records, Rejected(classify), |s.records|);
  }

  /** The walk stops at the record after the `seen` ones. */
  lemma WalkStopsAt<T>(classify: Response -> MapOrNot<T>, s: Records, seen: seq<Response>, r: Response, later: seq<Response>)
    requires s.records == seen + [r] + later
    requires forall k :: 0 <= k < |seen| ==> !Rejects(classify, seen[k])
    requires Rejects(classify, r)
    ensures Walk(classify, s) == Err(Unexpected(classify(r).resp))
  {
    assert s.records[|seen|] == r;
    forall k | 0 <= k < |seen| ensures !Rejected(classify)(s.records[k]) {
      assert s.records[k] == seen[k];
    }
    FirstWhereUnique(s.records, Rejected(classify), |seen|);
  }

  /** The walk stops at bytes the tokenizer cannot read. */
  lemma WalkStuck<T>(classify: Response -> MapOrNot<T>, s: Records, seen: seq<Response>, rest: Bytes)
    requires s.records == seen && s.tail == Stuck(rest)
    requires forall k :: 0 <= k < |seen| ==> !Rejects(classify, seen[k])
    ensures Walk(classify, s) == Err(Invalid(rest))
  {
    FirstWhereUnique(s.records, Rejected(classify), |seen|);
  }

  /** Tokenizes `lines` record by record and asks `classify` about each one. */
  method ParseMany<T>(tok: Tokenizer, lines: Bytes, classify: Response -> MapOrNot<T>)
    returns (r: Result<seq<T>>)
    ensures r == Walk(classify, Tokenize(tok, lines))
    ensures |lines| == 0 ==> r == Ok([])
  {
    ghost var whole := Tokenize(tok, lines);
    var rest := lines;
    var things: seq<T> := [];
    ghost var seen: seq<Response> := [];
    while true
      invariant whole.records == seen + Tokenize(tok, rest).records
      invariant whole.tail == Tokenize(tok, rest).tail
      invariant forall k :: 0 <= k < |seen| ==> !Rejects(classify, seen[k])
      invariant things == Mapped(classify, seen)
      decreases |rest|
    {
      if |rest| == 0 {
        TokenizeEnd(tok, rest, seen, whole);
        WalkAccepts(classify, whole);
        return Ok(things);
      }
      var step := tok(rest);
      if step.NotParsed? {
        TokenizeEnd(tok, rest, seen, whole);
        WalkStuck(classify, whole, seen, rest);
        return Err(Invalid(rest));
      }
      var resp := step.resp;
      TokenizeStep(tok, rest, seen, whole);
      ghost var after := Tokenize(tok, step.rest);
      rest := step.rest;
      var verdict := classify(resp);
      if verdict.Map? {
        things := things + [verdict.value];
      } else if verdict.Not? && !IsUnilateral(verdict.resp) {
        WalkStopsAt(classify, whole, seen, resp, after.records);
        return Err(Unexpected(verdict.resp));
      }
      MappedSnoc(classify, seen, resp);
      seen := seen + [resp];
    }
  }

  lemma {:induction false} MappedAppend<T>(classify: Response -> MapOrNot<T>, xs: seq<Response>, ys: seq<Response>)
    ensures Mapped(classify, xs + ys) == Mapped(classify, xs) + Mapped(classify, ys)
    decreases |ys|
  {
    if |ys| == 0 {
      assert xs + ys == xs;
    } else {
      var n := |ys| - 1;
      assert (xs + ys)[..|xs + ys| - 1] == xs + ys[..n];
      assert (xs + ys)[|xs + ys| - 1] == ys[n];
      MappedAppend(classify, xs, ys[..n]);
    }
  }

  /** The walk succeeds exactly when the tokenizer reads the whole buffer and no
      record stops it. */
  lemma WalkSucceedsIff<T>(classify: Response -> MapOrNot<T>, s: Records)
    ensures Walk(classify, s).Ok? <==>
      s.tail == Exhausted && forall k :: 0 <= k < |s.records| ==> !Rejects(classify, s.records[k])
    ensures Walk(classify, s).Ok? ==> Walk(classify, s).value == Mapped(classify, s.records)
  {
    var i := FirstWhere(s.records, Rejected(classify));
    if i < |s.records| {
      assert Rejects(classify, s.records[i]);
    }
  }

  /** A buffer read to its end whose every record the classifier hands back
      as a unilateral response gives an empty answer. */
  lemma WalkOnlyUnilateral<T>(classify: Response -> MapOrNot<T>, s: Records)
    requires s.tail == Exhausted
    requires forall k :: 0 <= k < |s.records| ==> classify(s.records[k]).Not? && IsUnilateral(classify(s.records[k]).resp)
    ensures Walk(classify, s) == Ok([])
  {
    WalkAccepts(classify, s);
    MappedNone(classify, s.records);
  }

  /** Records none of which is mapped give no values. */
  lemma {:induction false} MappedNone<T>(classify: Response -> MapOrNot<T>, rs: seq<Response>)
    requires forall k :: 0 <= k < |rs| ==> !classify(rs[k]).Map?
    ensures Mapped(classify, rs) == []
    decreases |rs|
  {
    if |rs| > 0 {
      MappedNone(classify, rs[..|rs| - 1]);
    }
  }

  /** A record that is not mapped adds nothing to the mapped values. */
  lemma MappedSkips<T>(classify: Response -> MapOrNot<T>, a: seq<Response>, u: Response, b: seq<Response>)
    requires !classify(u).Map?
    ensures Mapped(classify, a + [u] + b) == Mapped(classify, a + b)
  {
    var m := Mapped(classify, [u]);
    assert m == [] by {
      assert [u][..0] == [];
      assert m == Mapped(classify, []) + MappedOne(classify, u);
    }
    MappedAppend(classify, a, [u]);
    assert Mapped(classify, a + [u]) == Mapped(classify, a);
    MappedAppend(classify, a + [u], b);
    MappedAppend(classify, a, b);
  }

  /** A record that does not stop the walk moves the first stopping record one
      place on, or leaves it absent. */
  lemma FirstRejectedSkips<T>(classify: Response -> MapOrNot<T>, a: seq<Response>, u: Response, b: seq<Response>)
    requires !Rejects(classify, u)
    ensures var i1, i2 := FirstWhere(a + [u] + b, Rejected(classify)), FirstWhere(a + b, Rejected(classify));
      (i2 < |a + b| <==> i1 < |a + [u] + b|) &&
      (i2 < |a + b| ==> (a + [u] + b)[i1] == (a + b)[i2])
  {
    var rs1, rs2 := a + [u] + b, a + b;
    var rej := Rejected(classify);
    var i2 := FirstWhere(rs2, rej);
    if i2 < |a| {
      forall k | 0 <= k < i2 ensures !rej(rs1[k]) {
        assert rs1[k] == rs2[k];
      }
      assert rs1[i2] == rs2[i2];
      FirstWhereUnique(rs1, rej, i2);
    } else {
      forall k | 0 <= k < i2 + 1 ensures !rej(rs1[k]) {
        if k < |a| {
          assert rs1[k] == rs2[k];
        } else if k > |a| {
          assert rs1[k] == rs2[k - 1];
        }
      }
      if i2 < |rs2| {
        assert rs1[i2 + 1] == rs2[i2];
      }
      FirstWhereUnique(rs1, rej, i2 + 1);
    }
  }

  /** A record the walk skips, wherever it stands, changes nothing: a buffer
      with a RECENT, EXISTS, FETCH or EXPUNGE interleaved that the classifier
      does not want gives the same answer as the buffer without it. */
  lemma WalkSkipsUnilateral<T>(classify: Response -> MapOrNot<T>, a: seq<Response>, u: Response, b: seq<Response>, tail: Tail)
    requires classify(u).Ignore? || (classify(u).Not? && IsUnilateral(classify(u).resp))
    ensures Walk(classify, Records(a + [u] + b, tail)) == Walk(classify, Records(a + b, tail))
  {
    MappedSkips(classify, a, u, b);
    FirstRejectedSkips(classify, a, u, b);
  }
}
