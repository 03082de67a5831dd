/** `parse_names`: the answer to LIST and LSUB (sections 7.2.2 and 7.2.3 of
    RFC 3501), one Name per listing record. */
module Names {
  import opened ImapTypes
  import opened Folds
  import opened RecordStream
  import opened Walker

  predicate IsListing(r: Response) {
    r.MailboxData? && (r.datum.List? || r.datum.SubList?)
  }

  /** The Name a listing record describes, its fields copied as they are. */
  function NameOf(r: Response): Name
    requires IsListing(r)
  {
    Name(r.datum.flags, r.datum.delimiter, r.datum.name)
  }

  /** The classifier `parse_names` hands to the walker: a LIST or LSUB record
      maps to its Name, every other record is handed back. */
  function ClassifyName(r: Response): (c: MapOrNot<Name>)
    ensures c.Map? <==> IsListing(r)
    ensures c.Map? ==> c.value == NameOf(r)
    ensures !c.Map? ==> c == Not(r)
  {
    match r
    case MailboxData(List(flags, delimiter, name)) => Map(Name(flags, delimiter, name))
    case MailboxData(SubList(flags, delimiter, name)) => Map(Name(flags, delimiter, name))
    case _ => Not(r)
  }

  /** The walk over listings yields the listing records' names, in order. */
  lemma {:induction false} NamesAreListings(rs: seq<Response>)
    ensures var ls := Filter(rs, IsListing);
      |Mapped(ClassifyName, rs)| == |ls| &&
      forall k :: 0 <= k < |ls| ==> Mapped(ClassifyName, rs)[k] == NameOf(ls[k])
    decreases |rs|
  {
    if |rs| > 0 {
      var n := |rs| - 1;
      NamesAreListings(rs[..n]);
      var r := rs[n];
      if IsListing(r) {
        assert MappedOne(ClassifyName, r) == [NameOf(r)];
      } else {
        assert MappedOne(ClassifyName, r) == [];
      }
    }
  }

  /** A record stops the walk exactly when it is neither a listing nor
      unilateral. */
  lemma NameRejects(r: Response)
    ensures Rejects(ClassifyName, r) <==> !IsListing(r) && !IsUnilateral(r)
  {
  }

  method ParseNames(tok: Tokenizer, lines: Bytes) returns (r: Result<seq<Name>>)
    ensures r == Walk(ClassifyName, Tokenize(tok, lines))
    ensures var s := Tokenize(tok, lines);
      r.Ok? <==> (s.tail == Exhausted &&
        forall k :: 0 <= k < |s.records| ==> IsListing(s.records[k]) || IsUnilateral(s.records[k]))
    ensures var ls := Filter(Tokenize(tok, lines).records, IsListing);
      r.Ok? ==> (|r.value| == |ls| && forall k :: 0 <= k < |ls| ==> r.value[k] == NameOf(ls[k]))
  {
    r := ParseMany(tok, lines, ClassifyName);
    var s := Tokenize(tok, lines);
    WalkSucceedsIff(ClassifyName, s);
    forall k | 0 <= k < |s.records| ensures Rejects(ClassifyName, s.records[k]) <==>
      !IsListing(s.records[k]) && !IsUnilateral(s.records[k])
    {
      NameRejects(s.records[k]);
    }
    NamesAreListings(s.records);
  }

  /** One LIST line: `* LIST (\HasNoChildren) "." "INBOX"` gives one Name with
      those attributes, delimiter and name. */
  lemma OneListing(tok: Tokenizer, lines: Bytes)
    requires tok(lines) == Parsed([], MailboxData(List(["\\HasNoChildren"], Some("."), "INBOX")))
    ensures Walk(ClassifyName, Tokenize(tok, lines)) == Ok([Name(["\\HasNoChildren"], Some("."), "INBOX")])
  {
    var r := MailboxData(List(["\\HasNoChildren"], Some("."), "INBOX"));
    TokenizeOne(tok, lines, r);
    assert !Rejects(ClassifyName, r);
    WalkAccepts(ClassifyName, Records([r], Exhausted));
    assert Mapped(ClassifyName, [r]) == [Name(["\\HasNoChildren"], Some("."), "INBOX")] by {
      assert [r][..0] == [];
      assert Mapped(ClassifyName, [r]) == Mapped(ClassifyName, []) + MappedOne(ClassifyName, r);
    }
  }
}
