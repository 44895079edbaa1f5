/** Models of the two Python string builtins the checker relies on:
    `str.split(sep)` with a one-character separator and `str.splitlines()`. */
module PyStr {

  // ---------------------------------------------------------------------
  // str.split(sep)
  // ---------------------------------------------------------------------

  /** `s.split(sep)`: the pieces of `s` between occurrences of `sep`.
      There is always at least one piece; `"".split(sep) == [""]`. */
  function Split(s: string, sep: char): (parts: seq<string>)
    ensures |parts| >= 1
  {
    if s == [] then [""]
    else
      var rest := Split(s[1..], sep);
      if s[0] == sep then [""] + rest
      else [[s[0]] + rest[0]] + rest[1..]
  }

  /** `sep.join(parts)`. */
  function Join(parts: seq<string>, sep: char): string
  {
    if parts == [] then ""
    else if |parts| == 1 then parts[0]
    else parts[0] + [sep] + Join(parts[1..], sep)
  }

  /** Joining the pieces of a split with the same separator gives back the string. */
  lemma {:induction false} JoinSplit(s: string, sep: char)
    ensures Join(Split(s, sep), sep) == s
  {
    if s != [] {
      var rest := Split(s[1..], sep);
      JoinSplit(s[1..], sep);
      if s[0] == sep {
        assert Split(s, sep) == [""] + rest;
        assert ([""] + rest)[1..] == rest;
        assert Join([""] + rest, sep) == "" + [sep] + Join(rest, sep);
        assert s == [sep] + s[1..];
      } else if |rest| == 1 {
        assert Split(s, sep) == [[s[0]] + rest[0]];
        assert s == [s[0]] + s[1..];
      } else {
        var parts := [[s[0]] + rest[0]] + rest[1..];
        assert parts[1..] == rest[1..];
        assert Join(parts, sep) == [s[0]] + rest[0] + [sep] + Join(rest[1..], sep);
        assert Join(rest, sep) == rest[0] + [sep] + Join(rest[1..], sep);
        assert s == [s[0]] + s[1..];
      }
    }
  }

  /** No piece of a split contains the separator. */
  lemma {:induction false} SplitPiecesLackSep(s: string, sep: char)
    ensures forall i :: 0 <= i < |Split(s, sep)| ==> sep !in Split(s, sep)[i]
  {
    if s != [] {
      SplitPiecesLackSep(s[1..], sep);
      var rest := Split(s[1..], sep);
      if s[0] != sep {
        assert sep !in [s[0]] + rest[0];
      }
    }
  }

  /** A split yields one more piece than there are separators in the string. */
  lemma {:induction false} SplitCount(s: string, sep: char)
    ensures |Split(s, sep)| == multiset(s)[sep] + 1
  {
    if s != [] {
      SplitCount(s[1..], sep);
      assert s == [s[0]] + s[1..];
      assert multiset(s) == multiset([s[0]]) + multiset(s[1..]);
    }
  }

  /** Splitting a string that starts with a separator-free run `a`: the run
      becomes the head of the first piece. */
  lemma {:induction false} SplitAfterRun(a: string, rest: string, sep: char)
    requires sep !in a
    ensures Split(a + rest, sep) == [a + Split(rest, sep)[0]] + Split(rest, sep)[1..]
  {
    if a != [] {
      SplitAfterRun(a[1..], rest, sep);
      assert (a + rest)[1..] == a[1..] + rest;
      assert (a + rest)[0] == a[0];
      assert [a[0]] + (a[1..] + Split(rest, sep)[0]) == a + Split(rest, sep)[0];
    } else {
      var parts := Split(rest, sep);
      assert a + rest == rest && a + parts[0] == parts[0];
      assert parts == [parts[0]] + parts[1..];
    }
  }

  /** Splitting a join of separator-free pieces gives back the pieces. */
  lemma {:induction false} SplitJoin(parts: seq<string>, sep: char)
    requires |parts| >= 1
    requires forall i :: 0 <= i < |parts| ==> sep !in parts[i]
    ensures Split(Join(parts, sep), sep) == parts
  {
    if |parts| == 1 {
      SplitAfterRun(parts[0], "", sep);
      assert parts[0] + "" == parts[0];
    } else {
      var tail := Join(parts[1..], sep);
      SplitJoin(parts[1..], sep);
      assert Join(parts, sep) == parts[0] + ([sep] + tail);
      SplitAfterRun(parts[0], [sep] + tail, sep);
      assert ([sep] + tail)[1..] == tail;
      var after := Split([sep] + tail, sep);
      assert after == [""] + parts[1..];
      assert after[0] == "" && after[1..] == parts[1..];
      assert parts[0] + "" == parts[0];
      assert parts == [parts[0]] + parts[1..];
    }
  }

  /** A string with exactly one separator splits into the text before and after it. */
  lemma SplitAtOnlySep(a: string, b: string, sep: char)
    requires sep !in a && sep !in b
    ensures Split(a + [sep] + b, sep) == [a, b]
  {
    SplitJoin([a, b], sep);
    assert Join([a, b], sep) == a + [sep] + Join([b], sep);
  }

  // ---------------------------------------------------------------------
  // str.splitlines()
  // ---------------------------------------------------------------------

  /** The characters at which Python's `str.splitlines` ends a line:
      line feed, carriage return, vertical tab, form feed, the file, group
      and record separators, next line, and the Unicode line and paragraph
      separators. `"\r\n"` is one boundary (see BreakWidth). */
  predicate IsLineBreak(c: char)
  {
    c == '\n' || c == '\r' || c == '\U{000B}' || c == '\U{000C}'
    || c == '\U{001C}' || c == '\U{001D}' || c == '\U{001E}'
    || c == '\U{0085}' || c == '\U{2028}' || c == '\U{2029}'
  }

  predicate NoLineBreak(s: string)
  {
    forall i :: 0 <= i < |s| ==> !IsLineBreak(s[i])
  }

  /** The index of the first line break in `s`, or `|s|` when there is none. */
  function LineEnd(s: string): (k: nat)
    ensures k <= |s|
    ensures forall j :: 0 <= j < k ==> !IsLineBreak(s[j])
    ensures k < |s| ==> IsLineBreak(s[k])
  {
    if s == [] || IsLineBreak(s[0]) then 0 else 1 + LineEnd(s[1..])
  }

  /** How many characters the boundary at `s[k]` takes: two for `"\r\n"`, else one. */
  function BreakWidth(s: string, k: nat): nat
    requires k < |s|
  {
    if s[k] == '\r' && k + 1 < |s| && s[k + 1] == '\n' then 2 else 1
  }

  /** `s.splitlines()`: the lines of `s` without their boundaries; a final
      boundary does not start an extra empty line, and `"".splitlines() == []`. */
  function SplitLines(s: string): seq<string>
    decreases |s|
  {
    if s == [] then []
    else
      var k := LineEnd(s);
      if k == |s| then [s]
      else [s[..k]] + SplitLines(s[k + BreakWidth(s, k)..])
  }

  /** No line produced by SplitLines contains a boundary character. */
  lemma {:induction false} SplitLinesLackBreaks(s: string)
    decreases |s|
    ensures forall i :: 0 <= i < |SplitLines(s)| ==> NoLineBreak(SplitLines(s)[i])
  {
    if s != [] {
      var k := LineEnd(s);
      if k < |s| {
        SplitLinesLackBreaks(s[k + BreakWidth(s, k)..]);
      }
    }
  }

  /** A line boundary as a body may write it: `"\r\n"` or one boundary character. */
  predicate IsLineTerminator(eol: string)
  {
    eol == "\r\n" || (|eol| == 1 && IsLineBreak(eol[0]))
  }

  /** Every line followed by `eol`. */
  function Terminated(lines: seq<string>, eol: string): string
  {
    if lines == [] then "" else lines[0] + eol + Terminated(lines[1..], eol)
  }

  lemma LineEndAt(a: string, b: string)
    requires NoLineBreak(a)
    requires b == [] || IsLineBreak(b[0])
    ensures LineEnd(a + b) == |a|
    decreases |a|
  {
    if a != [] {
      assert (a + b)[1..] == a[1..] + b;
      LineEndAt(a[1..], b);
    } else {
      assert a + b == b;
    }
  }

  /** The first character of a terminated text is that of its first line, or
      that of the terminator when the first line is empty. */
  lemma TerminatedHead(lines: seq<string>, eol: string, rest: string)
    requires lines != [] && eol != []
    ensures (Terminated(lines, eol) + rest)[0] == if lines[0] == [] then eol[0] else lines[0][0]
  {
    assert Terminated(lines, eol) + rest == lines[0] + (eol + Terminated(lines[1..], eol) + rest);
  }

  /** One terminated line at the front of a text is split off as a line. */
  lemma SplitLinesStep(a: string, eol: string, r: string)
    requires IsLineTerminator(eol) && NoLineBreak(a)
    requires eol == "\r" && r != [] ==> r[0] != '\n'
    ensures SplitLines(a + eol + r) == [a] + SplitLines(r)
  {
    var s := a + eol + r;
    assert s == a + (eol + r);
    LineEndAt(a, eol + r);
    var k := |a|;
    assert s[k] == eol[0];
    assert BreakWidth(s, k) == |eol| by {
      if eol == "\r" && k + 1 < |s| {
        assert s[k + 1] == r[0];
      }
      if eol == "\r\n" {
        assert s[k + 1] == '\n';
      }
    }
    assert s[..k] == a;
    assert s[k + |eol|..] == r;
  }

  /** After a terminated line under a lone `"\r"` terminator, the next
      character is never `'\n'` unless it comes from the remainder. */
  lemma NoMergeAfterCarriageReturn(lines: seq<string>, rest: string)
    requires forall i :: 0 <= i < |lines| ==> NoLineBreak(lines[i])
    requires rest != [] ==> rest[0] != '\n'
    ensures Terminated(lines, "\r") + rest != [] ==> (Terminated(lines, "\r") + rest)[0] != '\n'
  {
    if lines != [] {
      TerminatedHead(lines, "\r", rest);
      if lines[0] != [] {
        assert !IsLineBreak(lines[0][0]);
      }
    } else {
      assert Terminated(lines, "\r") + rest == rest;
    }
  }

  /** Splitting lines that each carry a terminator gives back those lines, and
      whatever follows is split on its own. With a lone `"\r"` terminator the
      remainder must not start with `'\n'`, which would merge into `"\r\n"`. */
  lemma {:induction false} SplitLinesTerminated(lines: seq<string>, eol: string, rest: string)
    requires IsLineTerminator(eol)
    requires forall i :: 0 <= i < |lines| ==> NoLineBreak(lines[i])
    requires eol == "\r" && lines != [] && rest != [] ==> rest[0] != '\n'
    ensures SplitLines(Terminated(lines, eol) + rest) == lines + SplitLines(rest)
  {
    if lines == [] {
      assert Terminated(lines, eol) + rest == rest;
    } else {
      var t := Terminated(lines[1..], eol);
      var r := t + rest;
      assert Terminated(lines, eol) + rest == lines[0] + eol + r;
      assert eol == "\r" && r != [] ==> r[0] != '\n' by {
        if eol == "\r" && lines[1..] != [] {
          NoMergeAfterCarriageReturn(lines[1..], rest);
        }
      }
      assert SplitLines(lines[0] + eol + r) == [lines[0]] + SplitLines(r) by {
        SplitLinesStep(lines[0], eol, r);
      }
      assert SplitLines(r) == lines[1..] + SplitLines(rest) by {
        SplitLinesTerminated(lines[1..], eol, rest);
      }
      assert lines == [lines[0]] + lines[1..];
    }
  }

  /** Splitting lines that each carry a terminator gives back those lines. */
  lemma SplitLinesOfTerminated(lines: seq<string>, eol: string)
    requires IsLineTerminator(eol)
    requires forall i :: 0 <= i < |lines| ==> NoLineBreak(lines[i])
    ensures SplitLines(Terminated(lines, eol)) == lines
  {
    SplitLinesTerminated(lines, eol, "");
    assert Terminated(lines, eol) + "" == Terminated(lines, eol);
    assert lines + SplitLines("") == lines;
  }
}
