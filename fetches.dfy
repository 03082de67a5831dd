/** `parse_fetches`: the answer to FETCH (section 7.4.2 of RFC 3501), one Fetch
    per FETCH record, each folded from that record's attribute list. */
module Fetches {
  import opened ImapTypes
  import opened Folds
  import opened RecordStream
  import opened Walker

  /** What each attribute offers to each field of a Fetch. A field read from
      an optional payload offers the payload's presence too, so that a later
      attribute with no payload clears an earlier one. */
  function FlagsOf(a: AttributeValue): seq<string> {
    if a.Flags? then a.flags else []
  }

  function UidOf(a: AttributeValue): Option<u32> {
    if a.Uid? then Some(a.uid) else None
  }

  function Rfc822Of(a: AttributeValue): Option<Option<Bytes>> {
    if a.Rfc822? then Some(a.rfc822) else None
  }

  function HeaderOf(a: AttributeValue): Option<Option<Bytes>> {
    if a.Rfc822Header? then Some(a.header) else None
  }

  function BodyOf(a: AttributeValue): Option<Option<Bytes>> {
    if a.BodySection? then Some(a.data) else None
  }

  function Flatten<X>(o: Option<Option<X>>): Option<X> {
    if o.Some? then o.value else None
  }

  /** The Fetch a record with number `num` and attributes `attrs` describes:
      every FLAGS list in order, and for the other fields the last attribute
      that sets them. */
  function FetchOf(num: u32, attrs: seq<AttributeValue>): Fetch {
    Fetched(
      num,
      Concat(attrs, FlagsOf),
      Last(attrs, UidOf),
      Flatten(Last(attrs, HeaderOf)),
      Flatten(Last(attrs, Rfc822Of)),
      Flatten(Last(attrs, BodyOf)))
  }

  /** The body of the classifier: starts from an empty Fetch and updates it
      attribute by attribute. */
  method BuildFetch(num: u32, attrs: seq<AttributeValue>) returns (fetch: Fetch)
    ensures fetch == FetchOf(num, attrs)
  {
    fetch := Fetched(num, [], None, None, None, None);
    for i := 0 to |attrs|
      invariant fetch == FetchOf(num, attrs[..i])
    {
      assert attrs[..i + 1][..i] == attrs[..i];
      match attrs[i] {
        case Flags(flags) =>
          fetch := fetch.(flags := fetch.flags + flags);
        case Uid(uid) =>
          fetch := fetch.(uid := Some(uid));
        case Rfc822(rfc) =>
          fetch := fetch.(rfc822 := rfc);
        case Rfc822Header(rfc) =>
          fetch := fetch.(rfc822Header := rfc);
        case BodySection(_, _, data) =>
          fetch := fetch.(body := data);
        case _ =>
      }
    }
    assert attrs[..|attrs|] == attrs;
  }

  /** The classifier `parse_fetches` hands to the walker: a FETCH record maps
      to the Fetch of its number and attributes, every other record is handed
      back. */
  function ClassifyFetch(r: Response): (c: MapOrNot<Fetch>)
    ensures c.Map? <==> r.Fetch?
    ensures c.Map? ==> c.value.message == r.num && c.value == FetchOf(r.num, r.attrs)
    ensures !c.Map? ==> c == Not(r)
  {
    match r
    case Fetch(num, attrs) => Map(FetchOf(num, attrs))
    case _ => Not(r)
  }

  /** Last-wins: the last UID, RFC822, RFC822.HEADER or BODY[] attribute sets
      its field, an absent payload included. */
  lemma FetchLastWins(num: u32, attrs: seq<AttributeValue>, j: nat)
    requires j < |attrs|
    ensures attrs[j].Uid? && (forall k :: j < k < |attrs| ==> !attrs[k].Uid?) ==>
      FetchOf(num, attrs).uid == Some(attrs[j].uid)
    ensures attrs[j].Rfc822? && (forall k :: j < k < |attrs| ==> !attrs[k].Rfc822?) ==>
      FetchOf(num, attrs).rfc822 == attrs[j].rfc822
    ensures attrs[j].Rfc822Header? && (forall k :: j < k < |attrs| ==> !attrs[k].Rfc822Header?) ==>
      FetchOf(num, attrs).rfc822Header == attrs[j].header
    ensures attrs[j].BodySection? && (forall k :: j < k < |attrs| ==> !attrs[k].BodySection?) ==>
      FetchOf(num, attrs).body == attrs[j].data
  {
    if attrs[j].Uid? {
      LastIsLatest(attrs, UidOf, attrs[j].uid);
    }
    if attrs[j].Rfc822? {
      LastIsLatest(attrs, Rfc822Of, attrs[j].rfc822);
    }
    if attrs[j].Rfc822Header? {
      LastIsLatest(attrs, HeaderOf, attrs[j].header);
    }
    if attrs[j].BodySection? {
      LastIsLatest(attrs, BodyOf, attrs[j].data);
    }
  }

  /** A field no attribute sets keeps its initial None. */
  lemma FetchUntouched(num: u32, attrs: seq<AttributeValue>)
    ensures (forall k :: 0 <= k < |attrs| ==> !attrs[k].Uid?) ==> FetchOf(num, attrs).uid == None
    ensures (forall k :: 0 <= k < |attrs| ==> !attrs[k].Rfc822?) ==> FetchOf(num, attrs).rfc822 == None
    ensures (forall k :: 0 <= k < |attrs| ==> !attrs[k].Rfc822Header?) ==> FetchOf(num, attrs).rfc822Header == None
    ensures (forall k :: 0 <= k < |attrs| ==> !attrs[k].BodySection?) ==> FetchOf(num, attrs).body == None
  {
    LastAbsent(attrs, UidOf);
    LastAbsent(attrs, Rfc822Of);
    LastAbsent(attrs, HeaderOf);
    LastAbsent(attrs, BodyOf);
  }

  /** FLAGS extend: the flags of a split attribute list are the flags of its
      first part followed by those of its second. */
  lemma FetchFlagsExtend(num: u32, xs: seq<AttributeValue>, ys: seq<AttributeValue>)
    ensures FetchOf(num, xs + ys).flags == FetchOf(num, xs).flags + FetchOf(num, ys).flags
  {
    ConcatAppend(xs, ys, FlagsOf);
  }

  predicate IsFetch(r: Response) {
    r.Fetch?
  }

  /** The walk over fetches yields one Fetch per FETCH record, in order. */
  lemma {:induction false} FetchesPerRecord(rs: seq<Response>)
    ensures var fs := Filter(rs, IsFetch);
      |Mapped(ClassifyFetch, rs)| == |fs| &&
      forall k :: 0 <= k < |fs| ==> Mapped(ClassifyFetch, rs)[k] == FetchOf(fs[k].num, fs[k].attrs)
    decreases |rs|
  {
    if |rs| > 0 {
      var n := |rs| - 1;
      FetchesPerRecord(rs[..n]);
      if IsFetch(rs[n]) {
        assert MappedOne(ClassifyFetch, rs[n]) == [FetchOf(rs[n].num, rs[n].attrs)];
      } else {
        assert MappedOne(ClassifyFetch, rs[n]) == [];
      }
    }
  }

  method ParseFetches(tok: Tokenizer, lines: Bytes) returns (r: Result<seq<Fetch>>)
    ensures r == Walk(ClassifyFetch, Tokenize(tok, lines))
    ensures var s := Tokenize(tok, lines);
      r.Ok? <==> (s.tail == Exhausted && forall k :: 0 <= k < |s.records| ==> IsUnilateral(s.records[k]))
    ensures var fs := Filter(Tokenize(tok, lines).records, IsFetch);
      r.Ok? ==> (|r.value| == |fs| &&
        forall k :: 0 <= k < |fs| ==> r.value[k] == FetchOf(fs[k].num, fs[k].attrs))
  {
    r := ParseMany(tok, lines, ClassifyFetch);
    var s := Tokenize(tok, lines);
    WalkSucceedsIff(ClassifyFetch, s);
    FetchesPerRecord(s.records);
  }

  /** A record whose only attribute is a UID gives that UID and nothing else. */
  lemma OneUid(num: u32, uid: u32)
    ensures FetchOf(num, [Uid(uid)]) == Fetched(num, [], Some(uid), None, None, None)
  {
    var attrs := [Uid(uid)];
    assert attrs[..0] == [];
    assert Concat(attrs, FlagsOf) == Concat([], FlagsOf) + FlagsOf(attrs[0]);
    assert Last(attrs, UidOf) == Some(uid);
    assert Last(attrs, HeaderOf) == Last([], HeaderOf);
    assert Last(attrs, Rfc822Of) == Last([], Rfc822Of);
    assert Last(attrs, BodyOf) == Last([], BodyOf);
  }

  /** One FETCH followed by `* 1 RECENT` yields exactly the one Fetch. */
  lemma FetchThenRecent(tok: Tokenizer, lines: Bytes, rest: Bytes)
    requires tok(lines) == Parsed(rest, Fetch(37, [Uid(74)]))
    requires tok(rest) == Parsed([], MailboxData(Recent(1)))
    ensures Walk(ClassifyFetch, Tokenize(tok, lines)) == Ok([Fetched(37, [], Some(74), None, None, None)])
  {
    var f := Fetch(37, [Uid(74)]);
    var u := MailboxData(Recent(1));
    TokenizeTwo(tok, lines, rest, f, u);
    assert [f] + [u] + [] == [f, u];
    WalkSkipsUnilateral(ClassifyFetch, [f], u, [], Exhausted);
    assert [f] + [] == [f];
    assert !Rejects(ClassifyFetch, f);
    WalkAccepts(ClassifyFetch, Records([f], Exhausted));
    OneUid(37, 74);
    assert Mapped(ClassifyFetch, [f]) == [Fetched(37, [], Some(74), None, None, None)] by {
      assert [f][..0] == [];
      assert Mapped(ClassifyFetch, [f]) == Mapped(ClassifyFetch, []) + MappedOne(ClassifyFetch, f);
    }
  }
}
