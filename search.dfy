/** `parse_search_ids`: the answer to SEARCH (section 7.2.5 of RFC 3501). The
    bytes must be UTF-8 text matching `^(?i)\* SEARCH((?:\s+[0-9]+)*)\s*$`;
    the captured group is trimmed, split at spaces, and every piece that
    trims to a decimal u32 becomes an id. The regular expression is modelled
    by the language it accepts, with `\s` and `str::trim` both meaning the
    Unicode White_Space characters. */
module SearchIds {
  import opened ImapTypes
  import opened Folds
  import opened Utf8

  /** The Unicode White_Space property. */
  predicate IsSpace(c: char) {
    || ('\U{9}' <= c <= '\U{D}') || c == ' ' || c == '\U{85}' || c == '\U{A0}'
    || c == '\U{1680}' || ('\U{2000}' <= c <= '\U{200A}') || c == '\U{2028}' || c == '\U{2029}'
    || c == '\U{202F}' || c == '\U{205F}' || c == '\U{3000}'
  }

  predicate IsDigit(c: char) {
    '0' <= c <= '9'
  }

  /** `SEARCH` under simple case folding: each letter in either case, and the
      long s (U+017F), which folds to `s`, for the S. */
  predicate IsSearchWord(w: string) {
    && |w| == 6
    && (w[0] == 'S' || w[0] == 's' || w[0] == '\U{17F}')
    && (w[1] == 'E' || w[1] == 'e')
    && (w[2] == 'A' || w[2] == 'a')
    && (w[3] == 'R' || w[3] == 'r')
    && (w[4] == 'C' || w[4] == 'c')
    && (w[5] == 'H' || w[5] == 'h')
  }

  predicate AllSpace(s: string) {
    forall k :: 0 <= k < |s| ==> IsSpace(s[k])
  }

  /** The language of `(?:\s+[0-9]+)*`: empty, or white space and digits
      that begin with white space and end with a digit. */
  predicate IsIdGroup(g: string) {
    || |g| == 0
    || (&& IsSpace(g[0]) && IsDigit(g[|g| - 1])
        && forall k :: 0 <= k < |g| ==> IsSpace(g[k]) || IsDigit(g[k]))
  }

  /** The length of the longest prefix of `t` that ends with a digit, or 0. */
  function DigitsEnd(t: string): (n: nat)
    ensures n <= |t|
    ensures n > 0 ==> IsDigit(t[n - 1])
    ensures forall k :: n <= k < |t| ==> !IsDigit(t[k])
    decreases |t|
  {
    if |t| == 0 then 0
    else if IsDigit(t[|t| - 1]) then |t|
    else DigitsEnd(t[..|t| - 1])
  }

  /** What the regular expression captures from a line: None when the line
      does not match. After `* ` and the word, the rest must be white space
      and digits and start with white space; the group then takes it up to
      its last digit and `\s*$` the white space after. */
  function SearchCapture(text: string): Option<string> {
    if |text| < 8 || text[0] != '*' || text[1] != ' ' || !IsSearchWord(text[2..8]) then None
    else
      var t := text[8..];
      if (forall k :: 0 <= k < |t| ==> IsSpace(t[k]) || IsDigit(t[k])) && (|t| == 0 || IsSpace(t[0]))
      then Some(t[..DigitsEnd(t)])
      else None
  }

  /** The part after the word splits into the group and the white space
      after it. */
  lemma GroupThenSpace(t: string, g: string, trail: string)
    requires t == g + trail && IsIdGroup(g) && AllSpace(trail)
    ensures forall k :: 0 <= k < |t| ==> IsSpace(t[k]) || IsDigit(t[k])
    ensures |t| == 0 || IsSpace(t[0])
    ensures t[..DigitsEnd(t)] == g
  {
    forall k | 0 <= k < |t| ensures IsSpace(t[k]) || IsDigit(t[k]) {
      if k < |g| { assert t[k] == g[k]; } else { assert t[k] == trail[k - |g|]; }
    }
    if |g| == 0 && |trail| > 0 {
      assert t[0] == trail[0];
    } else if |g| > 0 {
      assert t[0] == g[0];
    }
    forall k | |g| <= k < |t| ensures !IsDigit(t[k]) {
      assert t[k] == trail[k - |g|];
    }
    if |g| > 0 {
      assert t[|g| - 1] == g[|g| - 1];
    }
    assert DigitsEnd(t) == |g|;
  }

  /** The regular expression captures `g` from `* ` + word + `g` + trailing
      white space, for every group `g` in the group's language. */
  lemma SearchCaptureComplete(w: string, g: string, trail: string)
    requires IsSearchWord(w) && IsIdGroup(g) && AllSpace(trail)
    ensures SearchCapture("* " + w + g + trail) == Some(g)
  {
    var text := "* " + w + g + trail;
    assert text[0] == '*' && text[1] == ' ';
    assert text[2..8] == w;
    assert text[8..] == g + trail;
    GroupThenSpace(text[8..], g, trail);
  }

  /** Conversely, a captured group is in the group's language, and the line
      is `* `, the word, the group and white space. */
  lemma SearchCaptureSound(text: string)
    requires SearchCapture(text).Some?
    ensures var g := SearchCapture(text).value;
      && |text| >= 8 + |g| && text[..2] == "* " && IsSearchWord(text[2..8]) && text[8..8 + |g|] == g
      && IsIdGroup(g) && AllSpace(text[8 + |g|..])
  {
    var t := text[8..];
    var n := DigitsEnd(t);
    var g := t[..n];
    forall k | 0 <= k < |g| ensures IsSpace(g[k]) || IsDigit(g[k]) {
      assert g[k] == t[k];
    }
    forall k | 8 + n <= k < |text| ensures IsSpace(text[k]) {
      assert text[k] == t[k - 8];
      assert !IsDigit(t[k - 8]);
    }
    if n > 0 {
      assert g[0] == t[0] && g[n - 1] == t[n - 1];
    }
    assert text[8 + n..] == t[n..];
  }

  /** `str::trim_start`: drops the leading white space. */
  function TrimStart(s: string): (r: string)
    ensures |r| <= |s| && r == s[|s| - |r|..]
    ensures AllSpace(s[..|s| - |r|])
    ensures |r| == 0 || !IsSpace(r[0])
    decreases |s|
  {
    if |s| > 0 && IsSpace(s[0]) then
      var r := TrimStart(s[1..]);
      assert s[..|s| - |r|] == [s[0]] + s[1..][..|s| - 1 - |r|];
      r
    else s
  }

  /** `str::trim_end`: drops the trailing white space. */
  function TrimEnd(s: string): (r: string)
    ensures |r| <= |s| && r == s[..|r|]
    ensures AllSpace(s[|r|..])
    ensures |r| == 0 || !IsSpace(r[|r| - 1])
    decreases |s|
  {
    if |s| > 0 && IsSpace(s[|s| - 1]) then
      var t := s[..|s| - 1];
      var r := TrimEnd(t);
      assert r == s[..|r|] by { assert t[..|r|] == s[..|r|]; }
      assert AllSpace(s[|r|..]) by {
        forall k | 0 <= k < |s| - |r| ensures IsSpace(s[|r|..][k]) {
          if k < |t| - |r| { assert s[|r|..][k] == t[|r|..][k]; }
        }
      }
      r
    else s
  }

  /** `str::trim`: the text without white space at either end. */
  function Trim(s: string): string {
    TrimEnd(TrimStart(s))
  }

  /** A text with no white space at either end trims to itself. */
  lemma TrimTrimmed(s: string)
    requires |s| == 0 || (!IsSpace(s[0]) && !IsSpace(s[|s| - 1]))
    ensures Trim(s) == s
  {
  }

  /** `str::split` at one character: the pieces between the separators,
      one more than there are separators, empty pieces included. */
  function SplitOn(s: string, sep: char): (pieces: seq<string>)
    ensures |pieces| >= 1
    ensures forall k :: 0 <= k < |pieces| ==> sep !in pieces[k]
    decreases |s|
  {
    if |s| == 0 then [""]
    else
      var rest := SplitOn(s[1..], sep);
      if s[0] == sep then [""] + rest
      else [[s[0]] + rest[0]] + rest[1..]
  }

  /** The pieces joined again with the separator between them. */
  function Join(pieces: seq<string>, sep: char): string
    requires |pieces| >= 1
    decreases |pieces|
  {
    if |pieces| == 1 then pieces[0] else pieces[0] + [sep] + Join(pieces[1..], sep)
  }

  /** Splitting loses nothing: joining the pieces gives the text back. */
  lemma {:induction false} JoinSplit(s: string, sep: char)
    ensures Join(SplitOn(s, sep), sep) == s
    decreases |s|
  {
    if |s| > 0 {
      var rest := SplitOn(s[1..], sep);
      JoinSplit(s[1..], sep);
      if s[0] == sep {
        assert SplitOn(s, sep)[1..] == rest;
      } else {
        var pieces := SplitOn(s, sep);
        if |rest| == 1 {
          assert pieces == [[s[0]] + rest[0]];
        } else {
          assert pieces[1..] == rest[1..];
          assert Join(rest, sep) == rest[0] + [sep] + Join(rest[1..], sep);
        }
      }
      assert [s[0]] + s[1..] == s;
    }
  }

  /** Splitting a text without the separator gives the text as one piece. */
  lemma {:induction false} SplitWhole(s: string, sep: char)
    requires sep !in s
    ensures SplitOn(s, sep) == [s]
    decreases |s|
  {
    if |s| > 0 {
      SplitWhole(s[1..], sep);
      assert [s[0]] + s[1..] == s;
    }
  }

  /** Splitting at a separator the first piece does not contain. */
  lemma {:induction false} SplitCons(a: string, b: string, sep: char)
    requires sep !in a
    ensures SplitOn(a + [sep] + b, sep) == [a] + SplitOn(b, sep)
    decreases |a|
  {
    var s := a + [sep] + b;
    if |a| == 0 {
      assert s[1..] == b;
    } else {
      assert s[1..] == a[1..] + [sep] + b;
      SplitCons(a[1..], b, sep);
      assert [a[0]] + a[1..] == a;
    }
  }

  /** Splitting undoes joining pieces that do not contain the separator. */
  lemma {:induction false} SplitJoin(pieces: seq<string>, sep: char)
    requires |pieces| >= 1
    requires forall k :: 0 <= k < |pieces| ==> sep !in pieces[k]
    ensures SplitOn(Join(pieces, sep), sep) == pieces
    decreases |pieces|
  {
    if |pieces| == 1 {
      SplitWhole(pieces[0], sep);
    } else {
      SplitJoin(pieces[1..], sep);
      SplitCons(pieces[0], Join(pieces[1..], sep), sep);
      assert [pieces[0]] + pieces[1..] == pieces;
    }
  }

  function DigitValue(c: char): nat
    requires IsDigit(c)
  {
    c as int - '0' as int
  }

  predicate AllDigits(s: string) {
    forall k :: 0 <= k < |s| ==> IsDigit(s[k])
  }

  /** The number a string of decimal digits spells. */
  function DecimalValue(d: string): nat
    requires AllDigits(d)
    decreases |d|
  {
    if |d| == 0 then 0 else DecimalValue(d[..|d| - 1]) * 10 + DigitValue(d[|d| - 1])
  }

  /** `str::parse::<u32>`: an optional `+`, then one or more decimal digits
      (leading zeros allowed) spelling a number below 2^32. */
  function ParseU32(s: string): Option<u32> {
    var d := if |s| > 0 && s[0] == '+' then s[1..] else s;
    if |d| > 0 && AllDigits(d) && DecimalValue(d) < 0x1_0000_0000 then Some(DecimalValue(d) as u32)
    else None
  }

  /** The decimal form of a number, without leading zeros. */
  function Decimal(n: nat): (d: string)
    ensures |d| > 0 && AllDigits(d)
    decreases n
  {
    if n < 10 then ['0' + n as char] else Decimal(n / 10) + ['0' + (n % 10) as char]
  }

  /** Round trip: parsing the decimal form of an id gives the id back. */
  lemma {:induction false} DecimalParses(n: nat)
    ensures DecimalValue(Decimal(n)) == n
    decreases n
  {
    if n >= 10 {
      DecimalParses(n / 10);
      var d := Decimal(n);
      assert d[..|d| - 1] == Decimal(n / 10);
    }
  }

  lemma U32RoundTrip(id: u32)
    ensures ParseU32(Decimal(id as nat)) == Some(id)
  {
    DecimalParses(id as nat);
  }

  /** The ids one piece of the split capture contributes: one when the
      trimmed piece parses, none otherwise. */
  function IdOf(piece: string): seq<u32> {
    match ParseU32(Trim(piece))
    case Some(id) => [id]
    case None => []
  }

  /** `parse_search_ids`. Every failure reports the whole input, and failure
      happens exactly when the bytes are not UTF-8 or the text does not match. */
  function ParseSearchIds(lines: Bytes): (r: Result<seq<u32>>)
    ensures r.Err? <==> (DecodeUtf8(lines).None? || SearchCapture(DecodeUtf8(lines).value).None?)
    ensures r.Err? ==> r.error == Invalid(lines)
  {
    match DecodeUtf8(lines)
    case None => Err(Invalid(lines))
    case Some(text) =>
      match SearchCapture(text)
      case None => Err(Invalid(lines))
      case Some(g) => Ok(Concat(SplitOn(Trim(g), ' '), IdOf))
  }

  /** The text of a SEARCH answer listing `ids`, each after one space. */
  function SearchLine(ids: seq<u32>): string
    decreases |ids|
  {
    if |ids| == 0 then "" else " " + Decimal(ids[0] as nat) + SearchLine(ids[1..])
  }

  /** The decimal forms of `ids`. */
  function Decimals(ids: seq<u32>): (ds: seq<string>)
    ensures |ds| == |ids|
    ensures forall k :: 0 <= k < |ds| ==> ds[k] == Decimal(ids[k] as nat)
    decreases |ids|
  {
    if |ids| == 0 then [] else [Decimal(ids[0] as nat)] + Decimals(ids[1..])
  }

  /** A listing of at least one id is a space, then the decimals joined
      with spaces. */
  lemma {:induction false} SearchLineJoins(ids: seq<u32>)
    requires |ids| > 0
    ensures SearchLine(ids) == " " + Join(Decimals(ids), ' ')
    decreases |ids|
  {
    if |ids| > 1 {
      SearchLineJoins(ids[1..]);
      assert Decimals(ids)[1..] == Decimals(ids[1..]);
    }
  }

  /** No decimal holds a space or any other white space. */
  lemma DecimalHasNoSpace(n: nat)
    ensures ' ' !in Decimal(n)
    ensures !IsSpace(Decimal(n)[0]) && !IsSpace(Decimal(n)[|Decimal(n)| - 1])
  {
    var d := Decimal(n);
    assert forall k :: 0 <= k < |d| ==> d[k] != ' ';
  }

  /** One decimal piece gives its id. */
  lemma IdOfDecimal(id: u32)
    ensures IdOf(Decimal(id as nat)) == [id]
  {
    DecimalHasNoSpace(id as nat);
    TrimTrimmed(Decimal(id as nat));
    U32RoundTrip(id);
  }

  /** Parsing the decimals again gives the ids back. */
  lemma IdsOfDecimals(ids: seq<u32>)
    ensures Concat(Decimals(ids), IdOf) == ids
  {
    var ds := Decimals(ids);
    forall k | 0 <= k < |ds| ensures IdOf(ds[k]) == [ids[k]] {
      IdOfDecimal(ids[k]);
    }
    ConcatOfSingles(ds, IdOf, ids);
  }

  /** The listing is in the group's language. */
  lemma {:induction false} SearchLineIsGroup(ids: seq<u32>)
    ensures IsIdGroup(SearchLine(ids))
    decreases |ids|
  {
    if |ids| > 0 {
      var d := Decimal(ids[0] as nat);
      var rest := SearchLine(ids[1..]);
      SearchLineIsGroup(ids[1..]);
      var g := SearchLine(ids);
      assert g == " " + d + rest;
      forall k | 0 <= k < |g| ensures IsSpace(g[k]) || IsDigit(g[k]) {
        if k == 0 {
        } else if k <= |d| {
          assert g[k] == d[k - 1];
        } else {
          assert g[k] == rest[k - 1 - |d|];
        }
      }
      if |rest| == 0 {
        assert g[|g| - 1] == d[|d| - 1];
      } else {
        assert g[|g| - 1] == rest[|rest| - 1];
      }
    }
  }

  /** Trimming a listing of at least one id leaves the joined decimals. */
  lemma TrimListing(ids: seq<u32>)
    requires |ids| > 0
    ensures Trim(SearchLine(ids)) == Join(Decimals(ids), ' ')
  {
    var g := SearchLine(ids);
    var ds := Decimals(ids);
    var joined := Join(ds, ' ');
    SearchLineJoins(ids);
    assert TrimStart(g) == joined by {
      DecimalHasNoSpace(ids[0] as nat);
      assert joined[0] == ds[0][0];
      assert g[1..] == joined;
    }
    JoinEndsWithLast(ds, ' ');
    DecimalHasNoSpace(ids[|ids| - 1] as nat);
  }

  /** The ids come back from the captured listing. */
  lemma ListingParses(ids: seq<u32>)
    ensures Concat(SplitOn(Trim(SearchLine(ids)), ' '), IdOf) == ids
  {
    if |ids| == 0 {
      assert Trim(SearchLine(ids)) == "";
      assert [""][..0] == [];
      assert Concat([""], IdOf) == Concat([], IdOf) + IdOf("");
    } else {
      var ds := Decimals(ids);
      TrimListing(ids);
      forall k | 0 <= k < |ds| ensures ' ' !in ds[k] {
        DecimalHasNoSpace(ids[k] as nat);
      }
      SplitJoin(ds, ' ');
      IdsOfDecimals(ids);
    }
  }

  /** A line of the regular expression's language parses to the ids of the
      space-separated pieces of its trimmed group. */
  lemma SearchOfGroup(w: string, g: string, trail: string)
    requires IsSearchWord(w) && IsIdGroup(g) && AllSpace(trail)
    ensures ParseSearchIds(EncodeUtf8("* " + w + g + trail)) == Ok(Concat(SplitOn(Trim(g), ' '), IdOf))
  {
    var text := "* " + w + g + trail;
    assert DecodeUtf8(EncodeUtf8(text)) == Some(text) by {
      DecodeEncode(text);
    }
    assert SearchCapture(text) == Some(g) by {
      SearchCaptureComplete(w, g, trail);
    }
  }

  /** Round trip: the UTF-8 bytes of `* `, the word SEARCH in any case, a
      space and the decimal form of each id, and trailing white space such as
      CRLF parse to exactly those ids, in order. */
  lemma SearchRoundTrip(w: string, ids: seq<u32>, trail: string)
    requires IsSearchWord(w) && AllSpace(trail)
    ensures ParseSearchIds(EncodeUtf8("* " + w + SearchLine(ids) + trail)) == Ok(ids)
  {
    SearchLineIsGroup(ids);
    SearchOfGroup(w, SearchLine(ids), trail);
    ListingParses(ids);
  }

  /** `* SEARCH` alone is an empty answer. */
  lemma EmptySearch(text: string)
    requires text == "* SEARCH"
    ensures ParseSearchIds(EncodeUtf8(text)) == Ok([])
  {
    assert "* " + "SEARCH" + SearchLine([]) + "" == text by {
      assert SearchLine([]) == "";
    }
    SearchRoundTrip("SEARCH", [], "");
  }

  /** A lower-case word and a line ending in CRLF are accepted as well. */
  lemma LowerCaseSearch(text: string)
    requires text == "* search 5\r\n"
    ensures ParseSearchIds(EncodeUtf8(text)) == Ok([5])
  {
    assert "* " + "search" + SearchLine([5]) + "\r\n" == text by {
      assert Decimal(5) == "5";
      assert SearchLine([5]) == " 5";
    }
    SearchRoundTrip("search", [5], "\r\n");
  }

  /** A line that is not a SEARCH answer is an error carrying its bytes. */
  lemma SearchRejectsOther()
    ensures ParseSearchIds(EncodeUtf8("* JUNK 1")) == Err(Invalid(EncodeUtf8("* JUNK 1")))
  {
    DecodeEncode("* JUNK 1");
    assert !IsSearchWord("* JUNK 1"[2..8]);
  }

  /** The decimal form of a number at or above 2^32 does not parse: such a
      piece contributes no id. */
  lemma OverflowDropped(n: nat)
    requires n >= 0x1_0000_0000
    ensures IdOf(Decimal(n)) == []
  {
    DecimalHasNoSpace(n);
    TrimTrimmed(Decimal(n));
    DecimalParses(n);
  }

  /** Digits, a tab and digits: the piece begins and ends with a digit. */
  lemma DigitsTabEnds(da: string, db: string)
    requires |da| > 0 && |db| > 0 && AllDigits(da) && AllDigits(db)
    ensures var p := da + "\t" + db; !IsSpace(p[0]) && !IsSpace(p[|p| - 1])
  {
    var p := da + "\t" + db;
    assert p[0] == da[0] && p[|p| - 1] == db[|db| - 1];
  }

  /** Digits, a tab and digits: the piece holds no space. */
  lemma DigitsTabNoSpace(da: string, db: string)
    requires AllDigits(da) && AllDigits(db)
    ensures ' ' !in da + "\t" + db
  {
    var p := da + "\t" + db;
    forall k | 0 <= k < |p| ensures p[k] != ' ' {
      if k < |da| { assert p[k] == da[k]; }
      else if k > |da| { assert p[k] == db[k - |da| - 1]; }
    }
  }

  /** Digits, a tab and digits: the piece is not a u32. */
  lemma DigitsTabNotU32(da: string, db: string)
    requires |da| > 0 && AllDigits(da)
    ensures ParseU32(da + "\t" + db).None?
  {
    var p := da + "\t" + db;
    assert p[0] == da[0] && p[|da|] == '\t';
  }

  /** Two runs of digits separated by a tab form one piece that does not
      parse. */
  lemma TabPieceDropped(da: string, db: string)
    requires |da| > 0 && |db| > 0 && AllDigits(da) && AllDigits(db)
    ensures var p := da + "\t" + db;
      Trim(p) == p && SplitOn(p, ' ') == [p] && IdOf(p) == []
  {
    var p := da + "\t" + db;
    DigitsTabEnds(da, db);
    TrimTrimmed(p);
    DigitsTabNoSpace(da, db);
    SplitWhole(p, ' ');
    DigitsTabNotU32(da, db);
  }

  /** A space, a decimal, a tab and a decimal form a group of the regular
      expression. */
  lemma TabIsGroup(a: u32, b: u32)
    ensures IsIdGroup(" " + Decimal(a as nat) + "\t" + Decimal(b as nat))
  {
    var da, db := Decimal(a as nat), Decimal(b as nat);
    var g := " " + da + "\t" + db;
    assert g[|g| - 1] == db[|db| - 1];
    forall k | 0 <= k < |g| ensures IsSpace(g[k]) || IsDigit(g[k]) {
      if 1 <= k <= |da| { assert g[k] == da[k - 1]; }
      else if k > |da| + 1 { assert g[k] == db[k - |da| - 2]; }
    }
  }

  /** That group yields no id. */
  lemma TabGroupIds(a: u32, b: u32)
    ensures Concat(SplitOn(Trim(" " + Decimal(a as nat) + "\t" + Decimal(b as nat)), ' '), IdOf) == []
  {
    var p := Decimal(a as nat) + "\t" + Decimal(b as nat);
    var g := " " + Decimal(a as nat) + "\t" + Decimal(b as nat);
    assert g[1..] == p;
    assert TrimStart(g) == TrimStart(p);
    TabPieceDropped(Decimal(a as nat), Decimal(b as nat));
    assert Concat([p], IdOf) == Concat([], IdOf) + IdOf(p);
  }

  /** The group admits any white space between ids, but only a space splits
      pieces: two ids separated by a tab form one piece, and neither id is
      reported. */
  lemma TabSeparatedIds(w: string, a: u32, b: u32)
    requires IsSearchWord(w)
    ensures var g := " " + Decimal(a as nat) + "\t" + Decimal(b as nat);
      ParseSearchIds(EncodeUtf8("* " + w + g + "")) == Ok([])
  {
    TabIsGroup(a, b);
    TabGroupIds(a, b);
    SearchOfGroup(w, " " + Decimal(a as nat) + "\t" + Decimal(b as nat), "");
  }

  /** A join ends with the end of its last piece. */
  lemma {:induction false} JoinEndsWithLast(pieces: seq<string>, sep: char)
    requires |pieces| >= 1 && |pieces[|pieces| - 1]| > 0
    ensures var j := Join(pieces, sep); |j| > 0 && j[|j| - 1] == pieces[|pieces| - 1][|pieces[|pieces| - 1]| - 1]
    decreases |pieces|
  {
    if |pieces| > 1 {
      JoinEndsWithLast(pieces[1..], sep);
    }
  }
}
