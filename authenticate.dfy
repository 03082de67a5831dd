/** `parse_authenticate_response`: the continuation line a server sends during
    AUTHENTICATE (sections 6.2.2 and 7.5 of RFC 3501). The line is matched
    against `^+(.*)\r\n`. There the `+` repeats the start-of-text anchor
    instead of standing for a plus sign, so the pattern accepts any line whose
    first line break is CRLF and captures all of the text before that CRLF, a
    leading `+` included. `.` matches every character but `\n`. */
module AuthenticateLine {
  import opened ImapTypes
  import opened Folds

  predicate IsNewline(c: char) {
    c == '\n'
  }

  /** The payload of a line that starts with `(.*)\r\n`: the text before its
      first `\n`, without the `\r` that must precede it. */
  function FirstLine(line: string): Option<string> {
    var p := FirstWhere(line, IsNewline);
    if 1 <= p < |line| && line[p - 1] == '\r' then Some(line[..p - 1]) else None
  }

  /** The pattern as written: the payload before the first CRLF, or the
      Authentication error carrying the whole line. An accepted line is its
      payload, CRLF, and the rest, and the payload holds no `\n`. */
  function ParseAuthenticateResponse(line: string): (r: Result<string>)
    ensures r.Err? ==> r.error == Authentication(line)
    ensures r.Ok? ==> '\n' !in r.value
    ensures r.Ok? ==> |r.value| + 2 <= |line| && line[..|r.value|] == r.value
    ensures r.Ok? ==> line[|r.value|..][..2] == "\r\n"
  {
    var first := FirstLine(line);
    if first.Some? then Ok(first.value) else Err(Authentication(line))
  }

  /** Round trip: a payload without `\n`, followed by CRLF and anything,
      comes back unchanged, a leading `+` included. */
  lemma AuthenticateRoundTrip(data: string, rest: string)
    requires '\n' !in data
    ensures ParseAuthenticateResponse(data + "\r\n" + rest) == Ok(data)
  {
    var line := data + "\r\n" + rest;
    assert line[|data|] == '\r' && line[|data| + 1] == '\n';
    forall k | 0 <= k < |data| + 1 ensures !IsNewline(line[k]) {
      if k < |data| {
        assert line[k] == data[k];
      }
    }
    FirstWhereUnique(line, IsNewline, |data| + 1);
    assert line[..|data|] == data;
  }

  /** A CRLF ends at `k`: `line[k]` is `\n` and the character before it `\r`. */
  predicate CrlfAt(line: string, k: int) {
    1 <= k < |line| && line[k - 1] == '\r' && line[k] == '\n'
  }

  /** A line fails exactly when every CRLF in it comes after an earlier bare
      `\n`, or it has none, and the error carries the line unchanged. */
  lemma AuthenticateFails(line: string)
    ensures ParseAuthenticateResponse(line).Err? <==>
      forall k :: CrlfAt(line, k) ==> exists j :: 0 <= j < k && line[j] == '\n'
    ensures ParseAuthenticateResponse(line).Err? ==> ParseAuthenticateResponse(line).error == Authentication(line)
  {
    var p := FirstWhere(line, IsNewline);
    if ParseAuthenticateResponse(line).Ok? {
      assert CrlfAt(line, p);
      forall j | 0 <= j < p ensures line[j] != '\n' {
        assert !IsNewline(line[j]);
      }
    } else {
      forall k | CrlfAt(line, k) ensures exists j :: 0 <= j < k && line[j] == '\n' {
        assert IsNewline(line[k]);
        assert line[p] == '\n';
      }
    }
  }

  /** The pattern as written keeps the `+`: `+abc123` CRLF gives `+abc123`,
      where `abc123` is meant; and it accepts a line with no `+` at all. */
  lemma PlusIsKept()
    ensures ParseAuthenticateResponse("+abc123\r\n") == Ok("+abc123")
    ensures ParseAuthenticateResponse("abc123\r\n") == Ok("abc123")
  {
    AuthenticateRoundTrip("+abc123", "");
    assert "+abc123" + "\r\n" + "" == "+abc123\r\n";
    AuthenticateRoundTrip("abc123", "");
    assert "abc123" + "\r\n" + "" == "abc123\r\n";
  }

  /** The pattern `^\+(.*)\r\n`, with the plus sign escaped as the error
      message and the continuation syntax call for: a line must start with
      `+`, and the payload is what follows it up to the first CRLF. */
  function ParseAuthenticateIntended(line: string): Result<string> {
    if |line| > 0 && line[0] == '+' then
      var first := FirstLine(line[1..]);
      if first.Some? then Ok(first.value) else Err(Authentication(line))
    else Err(Authentication(line))
  }

  /** Round trip for the intended pattern: `+`, a payload without `\n`, CRLF
      and anything give the payload without the `+`. */
  lemma IntendedRoundTrip(data: string, rest: string)
    requires '\n' !in data
    ensures ParseAuthenticateIntended("+" + data + "\r\n" + rest) == Ok(data)
  {
    var line := "+" + data + "\r\n" + rest;
    assert line[1..] == data + "\r\n" + rest;
    AuthenticateRoundTrip(data, rest);
  }

  /** The intended pattern rejects every line that does not start with `+`,
      and strips the `+` of `+abc123` CRLF. */
  lemma IntendedNeedsPlus(line: string)
    ensures (|line| == 0 || line[0] != '+') ==> ParseAuthenticateIntended(line) == Err(Authentication(line))
    ensures ParseAuthenticateIntended("+abc123\r\n") == Ok("abc123")
  {
    IntendedRoundTrip("abc123", "");
    assert "+" + "abc123" + "\r\n" + "" == "+abc123\r\n";
  }
}
