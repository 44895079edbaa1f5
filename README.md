# PasswordChecker: a verified model of the range-lookup core

`checkmypass.py` checks whether a password occurs in the Pwned Passwords
breach corpus without sending the password, or even its full hash, over the
network (k-anonymity). It takes the upper-case hexadecimal SHA-1 digest of
the password. It sends the first five characters to
`https://api.pwnedpasswords.com/range/<prefix>`. It scans the reply, one
`SUFFIX:COUNT` line at a time, for the remaining 35 characters.

This project models that core in Dafny:

- `results.dfy`: module `Results`. Defines `Result`, which stands for a
  Python call that either returns or raises.
- `pystr.dfy`: module `PyStr`. Models the two Python string builtins the
  scanner relies on:
  - `str.split(sep)`, as `Split`, with its inverse `Join`;
  - `str.splitlines()`, as `SplitLines`, over Python's documented set of
    line boundaries for `str`. `"\r\n"` counts as one boundary, and a final
    boundary does not start an empty line.
- `checkmypass.dfy`: module `CheckMyPass`. Models the digest split, the
  status check of `request_api_data`, the scanner `get_pwd_leaks_count`
  and the pipeline `pwned_api_check`.

The scanner is a method with a `while` loop over the lines of the reply. It
is proved equal to `Scan`, a recursive function that defines the outcome
line by line. Lemmas state what `Scan` means:
- the answer is "not found" exactly when every line unpacks and none
  matches;
- otherwise the answer is the count of the first match in body order;
- a line with no colon, or with two colons or more, raises the matching
  unpacking error, but only if the scan reaches it;
- nothing after the stopping point is read.

The hash is a parameter of the pipeline, and the network is an object it
receives:
- `sha1Hex: string -> Digest` stands for
  `hashlib.sha1(password.encode('utf-8')).hexdigest().upper()`. `Digest`
  is the type of 40-character strings over `0-9A-F`.
- The class `Network` stands for `requests.get`. Its method `Get` answers a
  request with `respond(url)`, a status and a body. It also records the
  address in the ghost log `sent`, so contracts can say which requests were
  made.

The outcomes are `Ok(NotFound)`, which is the Python integer `0`, and
`Ok(Found(countText))`, which is the unparsed text after the colon. The
errors are `Err(FetchError(status))` for the `RuntimeError` of a non-200
status, and `Err(NotEnoughValues)` and `Err(TooManyValues)` for the two
`ValueError`s of unpacking `line.split(':')` into `h, count`.

A reader might expect things that the code does not do. The model follows
the code:
- The comments at checkmypass.py:18 and :31 speak of the "number of times"
  the password was found. The code returns the count as the text after the
  colon, and only the not-found case is the integer `0`.
- A reader might expect a line to be split on its first colon only. The
  code splits on every colon, so a second colon raises instead of staying in
  the count.
- A reader might expect a line without a colon to be skipped. The code
  raises when the scan reaches such a line.
- A reader might expect the result not to depend on line order. With two
  lines for the same suffix, the first one wins
  (`DuplicateSuffixOrderMatters`). A malformed line before a match raises,
  but one after it is never read (`ScanAppend`). Swapping two well-formed
  lines with different suffixes leaves the result unchanged
  (`ScanSwapDistinct`).

## Model

| member | source | states |
|---|---|---|
| `PyStr.Split` | checkmypass.py:23 | `line.split(':')` always yields at least one field. |
| `PyStr.JoinSplit` | checkmypass.py:23 | Joining the fields of a split with the separator gives back the line. The split loses nothing. |
| `PyStr.SplitPiecesLackSep` | checkmypass.py:23 | No field of a split contains the separator. |
| `PyStr.SplitCount` | checkmypass.py:23-24 | A split yields one field more than the line has colons. So a line unpacks into `h, count` exactly when it has one colon. |
| `PyStr.SplitJoin` | checkmypass.py:23 | Splitting a join of colon-free fields gives back the fields. This is the other direction of the round trip. |
| `PyStr.SplitAtOnlySep` | checkmypass.py:23-24 | `a + ":" + b`, with no colon in `a` or `b`, splits into exactly `[a, b]`. |
| `PyStr.SplitLinesLackBreaks` | checkmypass.py:23 | No line from `splitlines()` contains a line-boundary character. |
| `PyStr.SplitLinesTerminated` | checkmypass.py:23 | Take lines each ended by the same terminator: `"\n"`, `"\r\n"`, `"\r"` or another boundary. `splitlines()` gives back exactly those lines, with no trailing empty line. What follows is split on its own. |
| `PyStr.SplitLinesOfTerminated` | checkmypass.py:23 | `splitlines()` of a body whose lines are each ended by the same terminator gives back exactly its lines. |
| `CheckMyPass.SplitDigest` | checkmypass.py:37-38 | The prefix has 5 characters and the tail 35. Together they give back the digest, and both are upper-case hexadecimal. |
| `CheckMyPass.RequestUrlInjective` | checkmypass.py:11 | The request address is the fixed base followed by the query. Two queries give the same address if and only if they are equal. |
| `CheckMyPass.Network.Get` | checkmypass.py:12 | One request: the address is appended to the log of sent requests, and the answer is the service's response for that address. |
| `CheckMyPass.CheckStatus` | checkmypass.py:13-15 | Fails if and only if the status is not 200, and the error carries that status. Otherwise returns the response unchanged. |
| `CheckMyPass.RequestApiData` | checkmypass.py:10-15 | Sends exactly one request, to the fixed base followed by the query. Its result is the status check applied to the response for that address. |
| `CheckMyPass.GetPwdLeaksCount` | checkmypass.py:22-27 | The loop over the lines of the body returns exactly `Scan` of those lines. |
| `CheckMyPass.ScanSkipsCleared` | checkmypass.py:24-25 | Well-formed, non-matching lines at the front are passed over. The outcome is that of the remaining lines. |
| `CheckMyPass.ScanNotFound` | checkmypass.py:24-27 | The result is the not-found `0` if and only if every line splits into two fields and no suffix equals the tail. |
| `CheckMyPass.ScanFound` | checkmypass.py:24-26 | The result is `Found(c)` if and only if some line splits into exactly `[tail, c]` and every earlier line was passed over. It is the first match in body order, and the count is the unparsed text after the colon. |
| `CheckMyPass.ScanNotEnoughValues` | checkmypass.py:23-24 | Raises "not enough values" if and only if the first line the scan stops at has no colon. This includes an empty interior line. |
| `CheckMyPass.ScanTooManyValues` | checkmypass.py:23-24 | Raises "too many values" if and only if the first line the scan stops at has two colons or more. |
| `CheckMyPass.ScanAppend` | checkmypass.py:23-26 | A match or error in the front lines decides the outcome whatever follows. Later lines, including duplicate suffixes and malformed lines, are never parsed. After a front that is all passed over, the outcome is that of the back. |
| `CheckMyPass.ScanSwapDistinct` | checkmypass.py:24-26 | Swapping two adjacent well-formed lines with different suffixes does not change the outcome. |
| `CheckMyPass.ForeignSuffixesNeverMatch` | checkmypass.py:25-27 | Matching is exact and case-sensitive. Against an upper-case hexadecimal tail, a reply whose lines all unpack but whose suffixes are not upper-case hexadecimal, such as lower-case ones, yields the not-found `0`. |
| `CheckMyPass.DuplicateSuffixOrderMatters` | checkmypass.py:24-26 | With two lines for the same suffix, the count of whichever comes first is returned. |
| `CheckMyPass.FoundInBody` | checkmypass.py:23-26 | Take a body of terminated lines in which the tail's line `tail:count` comes after non-matching well-formed lines only. The result for that body is `Found(count)`. |
| `CheckMyPass.PwnedApiCheck` | checkmypass.py:36-40 | Exactly one request is sent, for the digest's first five characters; the log of sent requests grows by that address alone. A non-200 status yields `FetchError(status)`. Otherwise the result is `Scan` of the reply's lines for that same digest's tail. |
| `CheckMyPass.RequestRevealsOnlyPrefix` | checkmypass.py:37-39 | The address `PwnedApiCheck` sends is the same for two passwords if and only if their digests share the first five characters. The tail never affects the request. |

## Left out

- The HTTP call `requests.get` (checkmypass.py:12) is network I/O. It is the class `Network`, whose answers are a fixed function from address to status and body. Decoding the reply into `.text` is part of that function. The exceptions `requests.get` raises itself, such as `ConnectionError` and `Timeout`, are not modelled: `Get` always answers, so those failures of `pwned_api_check` are left out.
- SHA-1, the UTF-8 encoding of the password and `hexdigest().upper()` (checkmypass.py:37) are library calls. They are the parameter `sha1Hex`, and only its output shape is stated: 40 characters from `0-9A-F`. `password.encode('utf-8')` raises `UnicodeEncodeError` on a lone surrogate; Dafny strings cannot hold one, so that failure is left out.
- The interactive menu `main` (checkmypass.py:47-71) is not modelled. It covers terminal input and output, `strip()` of the typed text, the `1`/`2` dispatch loop and the printing of the count.
- `PyStr.SplitLines` follows the line boundaries Python documents for `str.splitlines`. It makes no claim about other Unicode line-break rules.
- A `RuntimeError` or `ValueError` is an `Err` result. Python's stack unwinding and message formatting are not modelled.
