/** The core of checkmypass.py: the local half of a k-anonymity lookup
    against the Pwned Passwords range service. The password's SHA-1 digest
    is cut into a 5-character prefix, which is sent to the service, and a
    35-character tail, which is searched for in the service's reply. */
module CheckMyPass {
  import opened Results
  import opened PyStr

  // ---------------------------------------------------------------------
  // Errors and results
  // ---------------------------------------------------------------------

  /** What the Python code raises: `RuntimeError` for a non-200 status, and
      the two `ValueError`s of unpacking `line.split(':')` into `h, count`. */
  datatype CheckError =
    | FetchError(status: int)   // "Error fetching: <status>, check api and try again"
    | NotEnoughValues           // the line has no colon
    | TooManyValues             // the line has two colons or more

  /** The scanner's answer: the integer 0 when no line matches, else the
      count text of the matching line, left unparsed. */
  datatype LeakCount = NotFound | Found(countText: string)

  // ---------------------------------------------------------------------
  // Digest: sha1(password).hexdigest().upper() and its split
  // ---------------------------------------------------------------------

  predicate IsUpperHexDigit(c: char)
  {
    '0' <= c <= '9' || 'A' <= c <= 'F'
  }

  predicate IsUpperHex(s: string)
  {
    forall i :: 0 <= i < |s| ==> IsUpperHexDigit(s[i])
  }

  /** An upper-case hexadecimal SHA-1 digest: 40 characters from 0-9A-F. */
  type Digest = s: string | |s| == 40 && IsUpperHex(s)
    witness "0000000000000000000000000000000000000000"

  datatype DigestParts = DigestParts(first5: string, tail: string)

  /** `first5_char, tail = sha1pwd[:5], sha1pwd[5:]`. */
  function SplitDigest(digest: Digest): (parts: DigestParts)
    ensures |parts.first5| == 5 && |parts.tail| == 35
    ensures parts.first5 + parts.tail == digest
    ensures IsUpperHex(parts.first5) && IsUpperHex(parts.tail)
  {
    DigestParts(digest[..5], digest[5..])
  }

  // ---------------------------------------------------------------------
  // request_api_data: the range request and its status check
  // ---------------------------------------------------------------------

  const ApiRangeUrl := "https://api.pwnedpasswords.com/range/"

  /** The part of an HTTP response the checker reads. */
  datatype Response = Response(status: int, body: string)

  /** The address the range request is sent to. */
  function RequestUrl(queryChar: string): string
  {
    ApiRangeUrl + queryChar
  }

  /** The request reveals its query and nothing else: two queries give the
      same address exactly when they are equal. */
  lemma RequestUrlInjective(q1: string, q2: string)
    ensures RequestUrl(q1) == RequestUrl(q2) <==> q1 == q2
  {
    if RequestUrl(q1) == RequestUrl(q2) {
      assert q1 == RequestUrl(q1)[|ApiRangeUrl|..];
      assert q2 == RequestUrl(q2)[|ApiRangeUrl|..];
    }
  }

  /** The network as the checker sees it: `respond` is what the service
      answers for an address, and `sent` records every address requested so
      far, in order. */
  class Network {
    const respond: string -> Response
    ghost var sent: seq<string>

    constructor (respond: string -> Response)
      ensures this.respond == respond && sent == []
    {
      this.respond := respond;
      sent := [];
    }

    /** `requests.get(url)`: one request to `url`, answered by `respond`. */
    method Get(url: string) returns (res: Response)
      modifies this
      ensures sent == old(sent) + [url]
      ensures res == respond(url)
    {
      res := respond(url);
      sent := sent + [url];
    }
  }

  /** The status check of `request_api_data`: a status other than 200
      raises, carrying the status; a 200 response is handed on unchanged. */
  function CheckStatus(res: Response): (r: Result<Response, CheckError>)
    ensures r.Err? <==> res.status != 200
    ensures r.Ok? ==> r.value == res
    ensures r.Err? ==> r.error == FetchError(res.status)
  {
    if res.status != 200 then Err(FetchError(res.status)) else Ok(res)
  }

  /** `request_api_data(query_char)`: exactly one GET, to the range address
      for `queryChar`, whose response then goes through the status check. */
  method RequestApiData(queryChar: string, net: Network) returns (r: Result<Response, CheckError>)
    modifies net
    ensures net.sent == old(net.sent) + [RequestUrl(queryChar)]
    ensures r == CheckStatus(net.respond(RequestUrl(queryChar)))
  {
    var url := ApiRangeUrl + queryChar;
    var res := net.Get(url);
    r := CheckStatus(res);
  }

  // ---------------------------------------------------------------------
  // get_pwd_leaks_count: the match scanner
  // ---------------------------------------------------------------------

  /** `line.split(':')`. */
  function Fields(line: string): seq<string>
  {
    Split(line, ':')
  }

  function ColonCount(line: string): nat
  {
    multiset(line)[':']
  }

  /** A line the scan passes over: it unpacks into `h, count` and `h` is not the tail. */
  predicate Cleared(line: string, hashToCheck: string)
  {
    |Fields(line)| == 2 && Fields(line)[0] != hashToCheck
  }

  /** The scan passes over each of the first `n` lines. */
  predicate ClearedBefore(lines: seq<string>, n: nat, hashToCheck: string)
    requires n <= |lines|
  {
    forall j :: 0 <= j < n ==> Cleared(lines[j], hashToCheck)
  }

  /** The outcome of the scan over `lines`, one line at a time, stopping at
      the first line that fails to unpack or whose suffix matches. */
  function Scan(lines: seq<string>, hashToCheck: string): Result<LeakCount, CheckError>
  {
    if lines == [] then Ok(NotFound)
    else
      var fields := Fields(lines[0]);
      if |fields| < 2 then Err(NotEnoughValues)
      else if |fields| > 2 then Err(TooManyValues)
      else if fields[0] == hashToCheck then Ok(Found(fields[1]))
      else Scan(lines[1..], hashToCheck)
  }

  /** `get_pwd_leaks_count(hashes, hash_to_check)`. */
  method GetPwdLeaksCount(hashes: Response, hashToCheck: string) returns (count: Result<LeakCount, CheckError>)
    ensures count == Scan(SplitLines(hashes.body), hashToCheck)
  {
    var lines := SplitLines(hashes.body);
    var i := 0;
    while i < |lines|
      invariant 0 <= i <= |lines|
      invariant Scan(lines, hashToCheck) == Scan(lines[i..], hashToCheck)
    {
      var fields := Fields(lines[i]);
      if |fields| < 2 {
        return Err(NotEnoughValues);
      } else if |fields| > 2 {
        return Err(TooManyValues);
      }
      var h, c := fields[0], fields[1];
      if h == hashToCheck {
        return Ok(Found(c));
      }
      assert lines[i..][1..] == lines[i + 1..];
      i := i + 1;
    }
    return Ok(NotFound);
  }

  // ---- what the scan computes

  /** The lines the scan passes over are skipped: the outcome is that of the rest. */
  lemma {:induction false} ScanSkipsCleared(lines: seq<string>, n: nat, hashToCheck: string)
    requires n <= |lines| && ClearedBefore(lines, n, hashToCheck)
    ensures Scan(lines, hashToCheck) == Scan(lines[n..], hashToCheck)
  {
    if n > 0 {
      assert ClearedBefore(lines[1..], n - 1, hashToCheck) by {
        forall j | 0 <= j < n - 1 ensures Cleared(lines[1..][j], hashToCheck) {
          assert lines[1..][j] == lines[j + 1];
        }
      }
      assert Cleared(lines[0], hashToCheck);
      ScanSkipsCleared(lines[1..], n - 1, hashToCheck);
      assert lines[1..][n - 1..] == lines[n..];
    }
  }

  /** Unless the scan passes over every line, there is a first line it stops at. */
  lemma {:induction false} FirstStop(lines: seq<string>, n: nat, hashToCheck: string)
    requires n <= |lines| && !ClearedBefore(lines, n, hashToCheck)
    ensures exists i :: 0 <= i < n && ClearedBefore(lines, i, hashToCheck) && !Cleared(lines[i], hashToCheck)
  {
    if ClearedBefore(lines, n - 1, hashToCheck) {
      assert !Cleared(lines[n - 1], hashToCheck);
    } else {
      FirstStop(lines, n - 1, hashToCheck);
    }
  }

  /** The scan reports "not found" exactly when every line unpacks into two
      fields and no suffix equals the tail. */
  lemma {:induction false} ScanNotFound(lines: seq<string>, hashToCheck: string)
    ensures Scan(lines, hashToCheck) == Ok(NotFound) <==> ClearedBefore(lines, |lines|, hashToCheck)
  {
    if ClearedBefore(lines, |lines|, hashToCheck) {
      ScanSkipsCleared(lines, |lines|, hashToCheck);
    } else {
      FirstStop(lines, |lines|, hashToCheck);
      var i :| 0 <= i < |lines| && ClearedBefore(lines, i, hashToCheck) && !Cleared(lines[i], hashToCheck);
      ScanSkipsCleared(lines, i, hashToCheck);
    }
  }

  /** The scan reports `count` exactly when some line reads `<tail>:<count>`
      and every line before it was passed over: it is the first match in body
      order that counts, and the count is the text after the colon. */
  lemma {:induction false} ScanFound(lines: seq<string>, hashToCheck: string, count: string)
    ensures Scan(lines, hashToCheck) == Ok(Found(count)) <==>
      exists i :: 0 <= i < |lines| && ClearedBefore(lines, i, hashToCheck) && Fields(lines[i]) == [hashToCheck, count]
  {
    if i :| 0 <= i < |lines| && ClearedBefore(lines, i, hashToCheck) && Fields(lines[i]) == [hashToCheck, count] {
      ScanSkipsCleared(lines, i, hashToCheck);
    } else if Scan(lines, hashToCheck) == Ok(Found(count)) {
      ScanNotFound(lines, hashToCheck);
      FirstStop(lines, |lines|, hashToCheck);
      var i :| 0 <= i < |lines| && ClearedBefore(lines, i, hashToCheck) && !Cleared(lines[i], hashToCheck);
      ScanSkipsCleared(lines, i, hashToCheck);
      assert false;
    }
  }

  /** The scan raises "not enough values" exactly when the first line it
      stops at has no colon. */
  lemma ScanNotEnoughValues(lines: seq<string>, hashToCheck: string)
    ensures Scan(lines, hashToCheck) == Err(NotEnoughValues) <==>
      exists i :: 0 <= i < |lines| && ClearedBefore(lines, i, hashToCheck) && ColonCount(lines[i]) == 0
  {
    if i :| 0 <= i < |lines| && ClearedBefore(lines, i, hashToCheck) && ColonCount(lines[i]) == 0 {
      ScanSkipsCleared(lines, i, hashToCheck);
      SplitCount(lines[i], ':');
    } else if Scan(lines, hashToCheck) == Err(NotEnoughValues) {
      ScanNotFound(lines, hashToCheck);
      FirstStop(lines, |lines|, hashToCheck);
      var i :| 0 <= i < |lines| && ClearedBefore(lines, i, hashToCheck) && !Cleared(lines[i], hashToCheck);
      ScanSkipsCleared(lines, i, hashToCheck);
      SplitCount(lines[i], ':');
      assert false;
    }
  }

  /** The scan raises "too many values" exactly when the first line it stops
      at has two colons or more. */
  lemma ScanTooManyValues(lines: seq<string>, hashToCheck: string)
    ensures Scan(lines, hashToCheck) == Err(TooManyValues) <==>
      exists i :: 0 <= i < |lines| && ClearedBefore(lines, i, hashToCheck) && ColonCount(lines[i]) >= 2
  {
    if i :| 0 <= i < |lines| && ClearedBefore(lines, i, hashToCheck) && ColonCount(lines[i]) >= 2 {
      ScanSkipsCleared(lines, i, hashToCheck);
      SplitCount(lines[i], ':');
    } else if Scan(lines, hashToCheck) == Err(TooManyValues) {
      ScanNotFound(lines, hashToCheck);
      FirstStop(lines, |lines|, hashToCheck);
      var i :| 0 <= i < |lines| && ClearedBefore(lines, i, hashToCheck) && !Cleared(lines[i], hashToCheck);
      ScanSkipsCleared(lines, i, hashToCheck);
      SplitCount(lines[i], ':');
      assert false;
    }
  }

  /** Lines after the point where the scan stops are never looked at: a
      match or an error in `front` decides the outcome whatever follows. */
  lemma {:induction false} ScanAppend(front: seq<string>, back: seq<string>, hashToCheck: string)
    ensures Scan(front + back, hashToCheck) ==
      if Scan(front, hashToCheck) == Ok(NotFound) then Scan(back, hashToCheck) else Scan(front, hashToCheck)
  {
    if front == [] {
      assert front + back == back;
    } else {
      assert (front + back)[0] == front[0];
      assert (front + back)[1..] == front[1..] + back;
      ScanAppend(front[1..], back, hashToCheck);
    }
  }

  /** Two adjacent well-formed lines with different suffixes may be swapped
      without changing the outcome. */
  lemma ScanSwapDistinct(front: seq<string>, x: string, y: string, back: seq<string>, hashToCheck: string)
    requires |Fields(x)| == 2 && |Fields(y)| == 2 && Fields(x)[0] != Fields(y)[0]
    ensures Scan(front + [x, y] + back, hashToCheck) == Scan(front + [y, x] + back, hashToCheck)
  {
    assert Scan([x, y], hashToCheck) == Scan([y, x], hashToCheck) by {
      assert [x, y][1..] == [y] && [y, x][1..] == [x];
      assert [y][1..] == [] && [x][1..] == [];
    }
    ScanAppend(front, [x, y] + back, hashToCheck);
    ScanAppend(front, [y, x] + back, hashToCheck);
    ScanAppend([x, y], back, hashToCheck);
    ScanAppend([y, x], back, hashToCheck);
    assert front + [x, y] + back == front + ([x, y] + back);
    assert front + [y, x] + back == front + ([y, x] + back);
  }

  /** Suffix comparison is exact and case-sensitive: against an upper-case
      hexadecimal tail, a reply whose lines all unpack but whose suffixes are
      not upper-case hexadecimal (lower-case suffixes, say) yields "not found". */
  lemma {:induction false} ForeignSuffixesNeverMatch(lines: seq<string>, hashToCheck: string)
    requires IsUpperHex(hashToCheck)
    requires forall i :: 0 <= i < |lines| ==> |Fields(lines[i])| == 2 && !IsUpperHex(Fields(lines[i])[0])
    ensures Scan(lines, hashToCheck) == Ok(NotFound)
  {
    ScanNotFound(lines, hashToCheck);
  }

  /** With repeated suffixes the order of lines decides the count. */
  lemma DuplicateSuffixOrderMatters(tail: string, c1: string, c2: string)
    requires ':' !in tail && ':' !in c1 && ':' !in c2
    ensures Scan([tail + ":" + c1, tail + ":" + c2], tail) == Ok(Found(c1))
    ensures Scan([tail + ":" + c2, tail + ":" + c1], tail) == Ok(Found(c2))
  {
    SplitAtOnlySep(tail, c1, ':');
    SplitAtOnlySep(tail, c2, ':');
    assert tail + ":" + c1 == tail + [':'] + c1;
    assert tail + ":" + c2 == tail + [':'] + c2;
  }

  /** A reply body of `<suffix>:<count>` lines, each ended by the same
      terminator, in which the line for the tail comes after lines for other
      suffixes only, yields that line's count. */
  lemma FoundInBody(lines: seq<string>, i: nat, tail: string, count: string, eol: string)
    requires IsLineTerminator(eol)
    requires forall j :: 0 <= j < |lines| ==> NoLineBreak(lines[j])
    requires i < |lines| && ClearedBefore(lines, i, tail)
    requires ':' !in tail && ':' !in count && lines[i] == tail + ":" + count
    ensures Scan(SplitLines(Terminated(lines, eol)), tail) == Ok(Found(count))
  {
    SplitLinesOfTerminated(lines, eol);
    assert Fields(lines[i]) == [tail, count] by {
      assert lines[i] == tail + [':'] + count;
      SplitAtOnlySep(tail, count, ':');
    }
    ScanFound(lines, tail, count);
  }

  // ---------------------------------------------------------------------
  // pwned_api_check: the pipeline
  // ---------------------------------------------------------------------

  /** `pwned_api_check(password)`. `sha1Hex` stands for
      `hashlib.sha1(password.encode('utf-8')).hexdigest().upper()`. The one
      request made is for the digest's first five characters; its tail is
      only searched for in the reply. */
  method PwnedApiCheck(password: string, sha1Hex: string -> Digest, net: Network)
    returns (count: Result<LeakCount, CheckError>)
    modifies net
    ensures net.sent == old(net.sent) + [RequestUrl(SplitDigest(sha1Hex(password)).first5)]
    ensures var parts := SplitDigest(sha1Hex(password));
            var res := net.respond(RequestUrl(parts.first5));
            count == if res.status != 200 then Err(FetchError(res.status))
                     else Scan(SplitLines(res.body), parts.tail)
  {
    var sha1pwd := sha1Hex(password);
    var first5, tail := sha1pwd[..5], sha1pwd[5..];
    var response := RequestApiData(first5, net);
    if response.Err? {
      return Err(response.error);
    }
    count := GetPwdLeaksCount(response.value, tail);
  }

  /** k-anonymity: the one address `PwnedApiCheck` sends for a password is
      the same for every password whose digest has the same first five
      characters, and differs otherwise. */
  lemma RequestRevealsOnlyPrefix(p1: string, p2: string, sha1Hex: string -> Digest)
    ensures RequestUrl(SplitDigest(sha1Hex(p1)).first5) == RequestUrl(SplitDigest(sha1Hex(p2)).first5)
            <==> sha1Hex(p1)[..5] == sha1Hex(p2)[..5]
  {
    RequestUrlInjective(SplitDigest(sha1Hex(p1)).first5, SplitDigest(sha1Hex(p2)).first5);
  }
}
