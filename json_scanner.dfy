/** Var::ParseKV of Json.cpp: the balanced-delimiter scanner that cuts the body
    of an object or array into top-level segments.

    The scanner keeps a stack of expected closers (here a sequence whose last
    element is the top). A character equal to the top pops it; otherwise `"`
    pushes `"`, `[` pushes `]` and `{` pushes `}`. The delimiter ends the segment
    only when it did not pop and the stack is empty after it. */
module JsonScanner {

  /** The character closes the innermost open span: it is the closer on top
      of the stack, and the stack is the rest with that closer on top. */
  predicate Pops(stack: seq<char>, c: char): (r: bool)
    ensures r ==> |stack| > 0 && stack == stack[..|stack| - 1] + [c]
  {
    |stack| > 0 && c == stack[|stack| - 1]
  }

  /** The effect of one character on the closer stack: a character that
      closes the innermost span shortens the stack by one; any other keeps
      its length or pushes one closer, and a pushed closer is `"`, `]` or `}`. */
  function Step(stack: seq<char>, c: char): (r: seq<char>)
    ensures Pops(stack, c) ==> |r| == |stack| - 1
    ensures !Pops(stack, c) ==> |stack| <= |r| <= |stack| + 1
    ensures |r| > |stack| ==> r[|stack|] in "\"]}"
  {
    if Pops(stack, c) then stack[..|stack| - 1]
    else if c == '"' then stack + ['"']
    else if c == '[' then stack + [']']
    else if c == '{' then stack + ['}']
    else stack
  }

  /** The closer stack after feeding every character of `s`, with no stop. */
  function Run(stack: seq<char>, s: string): seq<char>
    decreases s
  {
    if |s| == 0 then stack else Run(Step(stack, s[0]), s[1..])
  }

  /** The scan started with `stack` would stop at index `i` of `s`: the character
      there is the delimiter, it did not pop, and the stack is empty after it. */
  predicate StopsAt(stack: seq<char>, s: string, i: nat, delim: char)
    requires i < |s|
  {
    var before := Run(stack, s[..i]);
    !Pops(before, s[i]) && s[i] == delim && Step(before, s[i]) == []
  }

  /** Where a scan ends: the characters it consumed (a stopping delimiter
      included), the stack it left, and whether it stopped at a delimiter. */
  datatype Scan = Scan(consumed: nat, stack: seq<char>, stopped: bool)

  /** The loop of Var::ParseKV, one character per call. */
  function ScanFrom(s: string, stack: seq<char>, delim: char): (r: Scan)
    ensures r.consumed <= |s|
    ensures |s| > 0 ==> r.consumed > 0
    ensures r.stopped ==> 0 < r.consumed && s[r.consumed - 1] == delim && r.stack == []
    ensures !r.stopped ==> r.consumed == |s|
  {
    if |s| == 0 then Scan(0, stack, false)
    else
      var st := Step(stack, s[0]);
      if !Pops(stack, s[0]) && s[0] == delim && st == [] then Scan(1, [], true)
      else
        var r := ScanFrom(s[1..], st, delim);
        Scan(r.consumed + 1, r.stack, r.stopped)
  }

  lemma StopsAtFirst(stack: seq<char>, s: string, delim: char)
    requires |s| > 0
    ensures StopsAt(stack, s, 0, delim) <==>
              !Pops(stack, s[0]) && s[0] == delim && Step(stack, s[0]) == []
  {
    assert s[..0] == [];
  }

  lemma StopsAtLater(stack: seq<char>, s: string, i: nat, delim: char)
    requires i + 1 < |s|
    ensures StopsAt(stack, s, i + 1, delim) <==> StopsAt(Step(stack, s[0]), s[1..], i, delim)
  {
    assert s[..i + 1][0] == s[0] && s[..i + 1][1..] == s[1..][..i];
    assert s[i + 1] == s[1..][i];
  }

  /** The scan stops exactly at the first index where a stop is possible, and
      when it stops nowhere it has fed the whole text to the stack. */
  lemma {:induction false} ScanIsFirstStop(s: string, stack: seq<char>, delim: char)
    ensures var r := ScanFrom(s, stack, delim);
      && (r.stopped ==> StopsAt(stack, s, r.consumed - 1, delim))
      && (forall i :: 0 <= i < |s| && StopsAt(stack, s, i, delim) ==> r.stopped && r.consumed - 1 <= i)
      && (!r.stopped ==> r.stack == Run(stack, s))
    decreases s
  {
    if |s| > 0 {
      var st := Step(stack, s[0]);
      StopsAtFirst(stack, s, delim);
      ScanIsFirstStop(s[1..], st, delim);
      forall i | 0 < i < |s| ensures StopsAt(stack, s, i, delim) <==> StopsAt(st, s[1..], i - 1, delim) {
        StopsAtLater(stack, s, i - 1, delim);
      }
    }
  }

  /** A scan that did not stop inside `t` continues on `u` from the stack it left. */
  lemma {:induction false} ScanConcat(t: string, u: string, stack: seq<char>, delim: char)
    requires !ScanFrom(t, stack, delim).stopped
    ensures var r := ScanFrom(u, ScanFrom(t, stack, delim).stack, delim);
      ScanFrom(t + u, stack, delim) == Scan(|t| + r.consumed, r.stack, r.stopped)
    decreases t
  {
    if |t| == 0 {
      assert t + u == u;
    } else {
      assert (t + u)[0] == t[0] && (t + u)[1..] == t[1..] + u;
      ScanConcat(t[1..], u, Step(stack, t[0]), delim);
    }
  }

  /** Characters that neither open nor close a span, and cannot stop the scan,
      leave the stack alone. */
  lemma {:induction false} ScanInert(s: string, stack: seq<char>, delim: char)
    requires forall i :: 0 <= i < |s| ==>
      s[i] != '"' && s[i] != '[' && s[i] != '{' && !Pops(stack, s[i]) && (stack == [] ==> s[i] != delim)
    ensures ScanFrom(s, stack, delim) == Scan(|s|, stack, false)
    decreases s
  {
    if |s| > 0 {
      ScanInert(s[1..], stack, delim);
    }
  }

  /** The result of Var::ParseKV: the segment and the advanced offset, or the
      failed `assert(deli.empty())` when the text ends inside an open span. */
  datatype Segment = Segment(text: string, next: nat) | Unbalanced

  /** What Var::ParseKV returns for `text` scanned from `offset`. */
  function NextSegment(text: string, offset: nat, delim: char): (r: Segment)
    requires offset < |text|
    ensures r.Segment? ==> offset < r.next <= |text| && |r.text| <= r.next - offset
  {
    var s := text[offset..];
    var sc := ScanFrom(s, [], delim);
    if sc.stack != [] then Unbalanced
    else
      var encoded := s[..sc.consumed];
      Segment(if encoded[|encoded| - 1] == delim then encoded[..|encoded| - 1] else encoded,
              offset + sc.consumed)
  }

  /** No stop is possible before index `n`. */
  predicate NoStopBefore(s: string, n: nat, delim: char)
  {
    forall i :: 0 <= i < n && i < |s| ==> !StopsAt([], s, i, delim)
  }

  /** ParseKV's contract: the segment is the text from `offset` up to the first
      delimiter met with an empty stack, that delimiter dropped, and the offset
      moves past it; with no such delimiter the segment is the whole rest, which
      must close every span it opens (otherwise the scan fails). */
  lemma NextSegmentIsFirstStop(text: string, offset: nat, delim: char)
    requires offset < |text|
    requires delim == ',' || delim == ':'
    ensures var s := text[offset..];
      var r := NextSegment(text, offset, delim);
      && (r.Unbalanced? <==> NoStopBefore(s, |s|, delim) && Run([], s) != [])
      && (r.Segment? ==> NoStopBefore(s, r.next - offset - 1, delim))
      && (r.Segment? && StopsAt([], s, r.next - offset - 1, delim) ==> r.text == s[..r.next - offset - 1])
      && (r.Segment? && !StopsAt([], s, r.next - offset - 1, delim) ==>
            r.next == |text| && r.text == s && Run([], s) == [] && NoStopBefore(s, |s|, delim))
  {
    var s := text[offset..];
    var sc := ScanFrom(s, [], delim);
    if sc.stack != [] {
      ScanUnbalanced(s, delim);
    } else if sc.stopped {
      ScanStopped(s, delim);
    } else {
      ScanRanOut(s, delim);
      assert s[..sc.consumed] == s;
    }
  }

  lemma ScanUnbalanced(s: string, delim: char)
    requires ScanFrom(s, [], delim).stack != []
    ensures NoStopBefore(s, |s|, delim) && Run([], s) != []
  {
    ScanIsFirstStop(s, [], delim);
  }

  lemma ScanStopped(s: string, delim: char)
    requires ScanFrom(s, [], delim).stopped
    ensures var n := ScanFrom(s, [], delim).consumed;
      NoStopBefore(s, n - 1, delim) && StopsAt([], s, n - 1, delim)
  {
    ScanIsFirstStop(s, [], delim);
  }

  lemma ScanRanOut(s: string, delim: char)
    requires |s| > 0
    requires delim == ',' || delim == ':'
    requires ScanFrom(s, [], delim).stack == [] && !ScanFrom(s, [], delim).stopped
    ensures NoStopBefore(s, |s|, delim) && Run([], s) == [] && s[|s| - 1] != delim
  {
    ScanIsFirstStop(s, [], delim);
    if s[|s| - 1] == delim {
      RunEndsAtDelimiter(s, delim);
    }
  }

  /** With `,` or `:` as delimiter, a text that leaves the stack empty and ends
      with the delimiter has a stop at its last character. */
  lemma RunEndsAtDelimiter(s: string, delim: char)
    requires |s| > 0 && s[|s| - 1] == delim && Run([], s) == []
    requires delim == ',' || delim == ':'
    ensures StopsAt([], s, |s| - 1, delim)
  {
    var n := |s| - 1;
    RunSnoc([], s[..n], s[n]);
    assert s[..n] + [s[n]] == s;
    RunClosers([], s[..n]);
  }

  /** Only closers are ever pushed. */
  predicate Closers(stack: seq<char>)
  {
    forall i :: 0 <= i < |stack| ==> stack[i] == '"' || stack[i] == ']' || stack[i] == '}'
  }

  lemma {:induction false} RunClosers(stack: seq<char>, s: string)
    requires Closers(stack)
    ensures Closers(Run(stack, s))
    decreases s
  {
    if |s| > 0 {
      RunClosers(Step(stack, s[0]), s[1..]);
    }
  }

  lemma {:induction false} RunSnoc(stack: seq<char>, s: string, c: char)
    ensures Run(stack, s + [c]) == Step(Run(stack, s), c)
    decreases s
  {
    if |s| == 0 {
      assert s + [c] == [c];
    } else {
      assert (s + [c])[0] == s[0] && (s + [c])[1..] == s[1..] + [c];
      RunSnoc(Step(stack, s[0]), s[1..], c);
    }
  }

  /** One step of the scan, at index `i` of `s`. */
  lemma ScanUnfold(s: string, i: nat, stack: seq<char>, delim: char)
    requires i < |s|
    ensures ScanFrom(s[i..], stack, delim) ==
      var st := Step(stack, s[i]);
      if !Pops(stack, s[i]) && s[i] == delim && st == [] then Scan(1, [], true)
      else
        var r := ScanFrom(s[i + 1..], st, delim);
        Scan(r.consumed + 1, r.stack, r.stopped)
  {
    assert s[i..][0] == s[i] && s[i..][1..] == s[i + 1..];
  }

  /** Var::ParseKV: scans `text` from `offset`, pushing every character onto the
      segment and keeping the stack of expected closers, until the delimiter is
      met with an empty stack or the text ends. The in/out `offset` of the
      source is returned in the segment. An `offset` at the end of the text
      would make `encoded.back()` read an empty string, so it is excluded. */
  method ParseKV(text: string, offset: nat, delimiter: char) returns (r: Segment)
    requires offset < |text|
    ensures r == NextSegment(text, offset, delimiter)
  {
    var encoding := text[offset..];
    var encoded, deli := ScanLoop(encoding, delimiter);
    if |deli| != 0 {
      return Unbalanced;
    }
    var next := offset + |encoded|;
    if encoded[|encoded| - 1] == delimiter {
      encoded := encoded[..|encoded| - 1];
    }
    r := Segment(encoded, next);
  }

  /** The character loop of Var::ParseKV: what it has appended to `encoded`
      and the closer stack `deli` when it stops or runs out, which are the
      consumed text and the stack of the scan. */
  method ScanLoop(encoding: string, delimiter: char) returns (encoded: string, deli: seq<char>)
    ensures var sc := ScanFrom(encoding, [], delimiter);
      encoded == encoding[..sc.consumed] && deli == sc.stack
  {
    deli := [];
    encoded := [];
    var i := 0;
    while i < |encoding|
      invariant 0 <= i <= |encoding|
      invariant encoded == encoding[..i]
      invariant var rest := ScanFrom(encoding[i..], deli, delimiter);
        ScanFrom(encoding, [], delimiter) == Scan(i + rest.consumed, rest.stack, rest.stopped)
    {
      var cp := encoding[i];
      ghost var before := deli;
      ScanUnfold(encoding, i, deli, delimiter);
      encoded := encoded + [cp];
      assert encoded == encoding[..i + 1];
      if |deli| > 0 && cp == deli[|deli| - 1] {
        deli := deli[..|deli| - 1];
        assert deli == Step(before, cp);
        i := i + 1;
        continue;
      }
      assert !Pops(before, cp);
      if cp == '"' {
        deli := deli + ['"'];
      } else if cp == '[' {
        deli := deli + [']'];
      } else if cp == '{' {
        deli := deli + ['}'];
      }
      assert deli == Step(before, cp);
      if cp == delimiter && |deli| == 0 {
        assert ScanFrom(encoding, [], delimiter) == Scan(|encoded|, deli, true);
        return;
      }
      i := i + 1;
    }
  }
}
