/** What Json::Parse makes of the text Json::Stringify produces.

    The text of a value parses back to that value as long as the value avoids
    what the two routines do not agree on: Null (no text at all), Float (the
    C library's conversions in both directions), the least `int` (its digits
    overflow while they accumulate), empty arrays and objects (their text is a
    lone closing bracket), and strings or keys holding `"`, `[` or `{` (the
    scanner of ParseKV opens a span at those even inside quotes, since nothing
    is escaped). */
module JsonRoundTrip {
  import opened JsonValue
  import opened JsonScanner
  import opened JsonParser
  import opened JsonSerializer
  import opened JsonEquality

  /** No character that would open or close a span for the scanner. */
  predicate PlainText(s: string)
  {
    forall i :: 0 <= i < |s| ==> s[i] != '"' && s[i] != '[' && s[i] != '{'
  }

  /** The values whose text parses back to them. */
  predicate Representable(v: Var)
    decreases v
  {
    match v
    case JNull => false
    case JBool(_) => true
    case JInt(i) => i != INT32_MIN
    case JFloat(_) => false
    case JString(s) => PlainText(s)
    case JArray(es) => |es| > 0 && forall i :: 0 <= i < |es| ==> Representable(es[i])
    case JObject(es) =>
      |es| > 0 && Sorted(es) &&
      forall i :: 0 <= i < |es| ==> PlainText(es[i].key) && Representable(es[i].value)
  }

  lemma {:induction false} RepresentableWellFormed(v: Var)
    requires Representable(v)
    ensures WellFormed(v)
    decreases v
  {
    match v
    case JArray(es) =>
      forall i | 0 <= i < |es| ensures WellFormed(es[i]) { RepresentableWellFormed(es[i]); }
    case JObject(es) =>
      forall i | 0 <= i < |es| ensures WellFormed(es[i].value) { RepresentableWellFormed(es[i].value); }
    case _ =>
  }

  /** The scan of `t` from `st` neither stops nor fails and leaves `st2`. */
  predicate Moves(t: string, st: seq<char>, st2: seq<char>, delim: char)
  {
    ScanFrom(t, st, delim) == Scan(|t|, st2, false)
  }

  lemma MovesConcat(t: string, u: string, a: seq<char>, b: seq<char>, c: seq<char>, delim: char)
    requires Moves(t, a, b, delim) && Moves(u, b, c, delim)
    ensures Moves(t + u, a, c, delim)
  {
    ScanConcat(t, u, a, delim);
  }

  lemma MovesChar(c: char, st: seq<char>, delim: char)
    requires Pops(st, c) || c != delim || Step(st, c) != []
    ensures Moves([c], st, Step(st, c), delim)
  {
    assert [c][1..] == [];
  }

  /** An empty stack, or one whose innermost open span is an array or object. */
  predicate Resting(st: seq<char>)
  {
    st == [] || st[|st| - 1] == ']' || st[|st| - 1] == '}'
  }

  /** Characters of a number or a literal: the scanner passes them by. */
  predicate Inert(c: char, delim: char)
  {
    c != '"' && c != '[' && c != '{' && c != ']' && c != '}' && c != delim
  }

  lemma InertMoves(s: string, st: seq<char>, delim: char)
    requires Resting(st)
    requires forall i :: 0 <= i < |s| ==> Inert(s[i], delim)
    ensures Moves(s, st, st, delim)
  {
    ScanInert(s, st, delim);
  }

  /** A quoted plain text returns the scan to the stack it started from. */
  lemma QuotedMoves(s: string, st: seq<char>, delim: char)
    requires PlainText(s) && Resting(st) && (delim == ',' || delim == ':')
    ensures Moves("\"" + s + "\"", st, st, delim)
  {
    var inside := st + ['"'];
    MovesChar('"', st, delim);
    assert Step(st, '"') == inside;
    ScanInert(s, inside, delim);
    MovesChar('"', inside, delim);
    assert Step(inside, '"') == st;
    MovesConcat("\"", s, st, inside, inside, delim);
    MovesConcat("\"" + s, "\"", st, inside, st, delim);
  }

  /** Parts that each return the scan to a non-empty resting stack, joined by
      commas, do too: no comma stops a scan inside a span. */
  lemma {:induction false} JoinMoves(parts: seq<string>, st: seq<char>, delim: char)
    requires |st| > 0 && Resting(st) && (delim == ',' || delim == ':')
    requires forall i :: 0 <= i < |parts| ==> Moves(parts[i], st, st, delim)
    ensures Moves(Join(parts), st, st, delim)
    decreases |parts|
  {
    if |parts| == 0 {
    } else if |parts| == 1 {
      assert Moves(parts[0], st, st, delim);
    } else {
      JoinMoves(parts[1..], st, delim);
      MovesChar(',', st, delim);
      assert Step(st, ',') == st;
      MovesConcat(parts[0], ",", st, st, st, delim);
      MovesConcat(parts[0] + ",", Join(parts[1..]), st, st, st, delim);
    }
  }

  lemma IntTextInert(i: int, delim: char)
    requires delim == ',' || delim == ':'
    ensures forall k :: 0 <= k < |IntToString(i)| ==> Inert(IntToString(i)[k], delim)
  {
    var r := IntToString(i);
    forall k | 0 <= k < |r| ensures Inert(r[k], delim) {
      if i < 0 && k > 0 {
        assert r[k] == r[1..][k - 1];
        assert IsDigit(NatToString(-i)[k - 1]);
      } else if i >= 0 {
        assert IsDigit(NatToString(i)[k]);
      }
    }
  }

  /** The text of a representable value, scanned from an empty or resting
      stack, neither stops nor fails, and leaves the stack as it found it. */
  lemma {:induction false} RenderScan(v: Var, ftoa: Float32 -> string, st: seq<char>, delim: char)
    requires Representable(v) && Resting(st) && (delim == ',' || delim == ':')
    ensures Moves(Render(v, ftoa), st, st, delim)
    decreases v
  {
    match v
    case JBool(b) =>
      InertMoves(Render(v, ftoa), st, delim);
    case JInt(i) =>
      IntTextInert(i, delim);
      InertMoves(Render(v, ftoa), st, delim);
    case JString(s) =>
      QuotedMoves(s, st, delim);
    case JArray(es) =>
      var inside := st + [']'];
      var texts := ElementTexts(es, ftoa);
      forall i | 0 <= i < |texts| ensures Moves(texts[i], inside, inside, delim) {
        RenderScan(es[i], ftoa, inside, delim);
      }
      JoinMoves(texts, inside, delim);
      Brackets('[', ']', Join(texts), st, delim);
    case JObject(es) =>
      var inside := st + ['}'];
      var texts := MemberTexts(es, ftoa);
      forall i | 0 <= i < |texts| ensures Moves(texts[i], inside, inside, delim) {
        RenderScan(es[i].value, ftoa, inside, delim);
        MemberMoves(es[i].key, Render(es[i].value, ftoa), inside, delim);
      }
      JoinMoves(texts, inside, delim);
      Brackets('{', '}', Join(texts), st, delim);
  }

  /** An opening bracket, a text that keeps its closer on the stack, and the
      closer: the stack ends as it started. */
  lemma Brackets(open: char, close: char, body: string, st: seq<char>, delim: char)
    requires (open == '[' && close == ']') || (open == '{' && close == '}')
    requires Resting(st) && (delim == ',' || delim == ':')
    requires Moves(body, st + [close], st + [close], delim)
    ensures Moves([open] + body + [close], st, st, delim)
  {
    var inside := st + [close];
    MovesChar(open, st, delim);
    assert Step(st, open) == inside;
    MovesChar(close, inside, delim);
    assert Step(inside, close) == st;
    MovesConcat([open], body, st, inside, inside, delim);
    MovesConcat([open] + body, [close], st, inside, st, delim);
  }

  lemma MemberMoves(key: string, valueText: string, st: seq<char>, delim: char)
    requires PlainText(key) && |st| > 0 && Resting(st) && (delim == ',' || delim == ':')
    requires Moves(valueText, st, st, delim)
    ensures Moves(Member(key, valueText), st, st, delim)
  {
    QuotedMoves(key, st, delim);
    MovesChar(':', st, delim);
    assert Step(st, ':') == st;
    MovesConcat("\"" + key + "\"", ":", st, st, st, delim);
    MovesConcat("\"" + key + "\"" + ":", valueText, st, st, st, delim);
    assert Member(key, valueText) == "\"" + key + "\"" + ":" + valueText;
  }

  /** The text of a representable value is never empty and never ends with a
      comma. */
  lemma RenderEnds(v: Var, ftoa: Float32 -> string)
    requires Representable(v)
    ensures var t := Render(v, ftoa); |t| > 0 && t[|t| - 1] != ','
  {
    match v
    case JInt(i) =>
      var t := IntToString(i);
      if i < 0 {
        assert t[|t| - 1] == t[1..][|t| - 2];
        assert IsDigit(NatToString(-i)[|t| - 2]);
      } else {
        assert IsDigit(NatToString(i)[|t| - 1]);
      }
    case _ =>
  }

  /** The segment ParseKV cuts from a text that continues with the delimiter. */
  lemma SegmentBefore(text: string, offset: nat, r: string, delim: char, rest: string)
    requires offset < |text| && (delim == ',' || delim == ':')
    requires Moves(r, [], [], delim)
    requires text[offset..] == r + [delim] + rest
    ensures NextSegment(text, offset, delim) == Segment(r, offset + |r| + 1)
  {
    var s := text[offset..];
    assert s == r + ([delim] + rest);
    DelimiterStops(rest, delim);
    ScanConcat(r, [delim] + rest, [], delim);
    assert s[..|r| + 1][..|r|] == r;
  }

  /** With no span open, `,` or `:` stops the scan at once. */
  lemma DelimiterStops(rest: string, delim: char)
    requires delim == ',' || delim == ':'
    ensures ScanFrom([delim] + rest, [], delim) == Scan(1, [], true)
  {
    assert ([delim] + rest)[0] == delim;
    assert Step([], delim) == [];
  }

  /** The `,`-segment `r` cut from `r` + `,` + `rest`, and the text after it. */
  lemma SegmentThenRest(text: string, offset: nat, r: string, rest: string) returns (next: nat)
    requires offset < |text| && Moves(r, [], [], ',')
    requires text[offset..] == r + [','] + rest
    ensures next == offset + |r| + 1 && next <= |text| && text[next..] == rest
    ensures NextSegment(text, offset, ',') == Segment(r, next)
  {
    SegmentBefore(text, offset, r, ',', rest);
    next := offset + |r| + 1;
    assert text[next..] == text[offset..][|r| + 1..];
  }

  /** The segment ParseKV cuts from a text that ends there. */
  lemma SegmentLast(text: string, offset: nat, r: string, delim: char)
    requires offset < |text|
    requires Moves(r, [], [], delim)
    requires text[offset..] == r && r[|r| - 1] != delim
    ensures NextSegment(text, offset, delim) == Segment(r, |text|)
  {
    assert text[offset..][..|r|] == r;
  }

  /** A number without its sign parses to its value; with a `-` to its
      negation. */
  lemma ParseIntText(i: int, atof: string -> Float32)
    requires INT32_MIN < i <= INT32_MAX
    ensures ParseResult(IntToString(i), atof) == Done(JInt(i))
  {
    var t := IntToString(i);
    if i >= 0 {
      ParseDigits(t, atof);
    } else {
      var ds := NatToString(-i);
      assert t[0] == '-' && IsDigit(t[|t| - 1]) by {
        assert t[|t| - 1] == ds[|ds| - 1];
      }
      TrimIdentity(t);
      forall k | 0 <= k < |t| ensures t[k] != '.' {
        if k > 0 { assert t[k] == ds[k - 1]; assert IsDigit(ds[k - 1]); }
      }
      assert t != "true" && t != "false";
      IntResultValue(t);
    }
  }

  /** Json::Parse undoes Json::Stringify on every representable value. */
  lemma {:induction false} RoundTrip(v: Var, atof: string -> Float32, ftoa: Float32 -> string)
    requires Representable(v)
    ensures ParseResult(Render(v, ftoa), atof) == Done(v)
    decreases v, 0
  {
    match v
    case JBool(b) =>
      ParseLiterals(atof);
    case JInt(i) =>
      ParseIntText(i, atof);
    case JString(s) =>
      ParseQuoted(s, atof);
    case JArray(es) =>
      var body := Join(ElementTexts(es, ftoa));
      ParseBraced(body, atof);
      assert ElementTexts(es, ftoa)[0..] == ElementTexts(es, ftoa);
      ElementsRoundTrip(body, 0, es, 0, atof, ftoa);
      assert es[..0] == [];
    case JObject(es) =>
      var body := Join(MemberTexts(es, ftoa));
      ParseBraced(body, atof);
      assert MemberTexts(es, ftoa)[0..] == MemberTexts(es, ftoa);
      MembersRoundTrip(body, 0, es, 0, atof, ftoa);
      assert es[..0] == [];
  }

  /** The elements from index `k` on, laid out from `offset`, are parsed in order
      onto those before `k`. */
  lemma {:induction false} ElementsRoundTrip(text: string, offset: nat, es: seq<Var>, k: nat,
                                             atof: string -> Float32, ftoa: Float32 -> string)
    requires k < |es| && offset <= |text|
    requires forall i :: 0 <= i < |es| ==> Representable(es[i])
    requires text[offset..] == Join(ElementTexts(es, ftoa)[k..])
    ensures AllWellFormed(es[..k])
    ensures ArrayResult(text, offset, es[..k], atof) == Done(JArray(es))
    decreases es, |es| - k
  {
    var texts := ElementTexts(es, ftoa);
    var t := texts[k];
    forall i | 0 <= i < k ensures WellFormed(es[..k][i]) { RepresentableWellFormed(es[i]); }
    ValueText(es[k], t, atof, ftoa);
    JoinFrom(texts, k);
    if k == |es| - 1 {
      LastElement(text, offset, es[..k], es[k], t, atof);
      PrefixExtend(es, k);
    } else {
      var next := NextElement(text, offset, es[..k], es[k], t, Join(texts[k + 1..]), atof);
      PrefixExtend(es, k);
      ElementsRoundTrip(text, next, es, k + 1, atof, ftoa);
    }
  }

  /** A prefix and the next element make the prefix one longer. */
  lemma PrefixExtend<T>(s: seq<T>, k: nat)
    requires k < |s|
    ensures s[..k] + [s[k]] == s[..k + 1]
    ensures k == |s| - 1 ==> s[..k] + [s[k]] == s
  {
  }

  /** The last element completes the array. */
  lemma LastElement(text: string, offset: nat, acc: seq<Var>, v: Var, t: string, atof: string -> Float32)
    requires offset < |text| && text[offset..] == t && |t| > 0 && t[|t| - 1] != ','
    requires Moves(t, [], [], ',') && ParseResult(t, atof) == Done(v)
    requires AllWellFormed(acc) && WellFormed(v)
    ensures ArrayResult(text, offset, acc, atof) == Done(JArray(acc + [v]))
  {
    SegmentLast(text, offset, t, ',');
    ArrayStep(text, offset, acc, t, v, |text|, atof);
  }

  /** An element followed by a `,` is appended, and parsing goes on after
      the `,`. */
  lemma NextElement(text: string, offset: nat, acc: seq<Var>, v: Var, t: string, rest: string,
                    atof: string -> Float32)
      returns (next: nat)
    requires offset < |text| && text[offset..] == t + [','] + rest
    requires Moves(t, [], [], ',') && |t| > 0 && ParseResult(t, atof) == Done(v)
    requires AllWellFormed(acc) && WellFormed(v)
    ensures next <= |text| && text[next..] == rest
    ensures ArrayResult(text, offset, acc, atof) == ArrayResult(text, next, acc + [v], atof)
  {
    next := SegmentThenRest(text, offset, t, rest);
    ArrayStep(text, offset, acc, t, v, next, atof);
  }

  lemma SortedPrefix(es: seq<Entry>, n: nat)
    requires Sorted(es) && n <= |es|
    ensures Sorted(es[..n])
  {
  }

  /** The members from index `k` on, laid out from `offset`, are parsed in order
      into the map holding those before `k`; ascending keys make each
      assignment an append. */
  lemma {:induction false} MembersRoundTrip(text: string, offset: nat, es: seq<Entry>, k: nat,
                                            atof: string -> Float32, ftoa: Float32 -> string)
    requires k < |es| && offset <= |text| && Sorted(es)
    requires forall i :: 0 <= i < |es| ==> PlainText(es[i].key) && Representable(es[i].value)
    requires text[offset..] == Join(MemberTexts(es, ftoa)[k..])
    ensures Sorted(es[..k]) && ValuesWellFormed(es[..k])
    ensures ObjectResult(text, offset, es[..k], atof) == Done(JObject(es))
    decreases es, |es| - k, 1
  {
    MembersPrefix(es, k);
    if k == |es| - 1 {
      LastMember(text, offset, es, k, atof, ftoa);
    } else {
      var next := NextMember(text, offset, es, k, atof, ftoa);
      MembersRoundTrip(text, next, es, k + 1, atof, ftoa);
    }
  }

  /** The common facts about member `k` laid out from `offset`: where its
      value's text starts, and that its key is cut off there. */
  lemma MemberAt(text: string, offset: nat, es: seq<Entry>, k: nat,
                 atof: string -> Float32, ftoa: Float32 -> string)
      returns (mid: nat, tail: string)
    requires k < |es| && offset <= |text|
    requires PlainText(es[k].key)
    requires text[offset..] == Join(MemberTexts(es, ftoa)[k..])
    ensures mid == offset + |es[k].key| + 3 && mid <= |text|
    ensures tail == if k == |es| - 1 then Render(es[k].value, ftoa)
                    else Render(es[k].value, ftoa) + [','] + Join(MemberTexts(es, ftoa)[k + 1..])
    ensures text[mid..] == tail
    ensures NextSegment(text, offset, ':') == Segment("\"" + es[k].key + "\"", mid)
  {
    var texts := MemberTexts(es, ftoa);
    var r := Render(es[k].value, ftoa);
    tail := if k == |es| - 1 then r else r + [','] + Join(texts[k + 1..]);
    var head := "\"" + es[k].key + "\"" + [':'];
    MemberLayout(es, ftoa, k);
    assert text[offset..] == head + tail;
    assert |head| > 0;
    KeySegment(text, offset, es[k].key, tail);
    mid := offset + |es[k].key| + 3;
  }

  /** The last member completes the object. */
  lemma LastMember(text: string, offset: nat, es: seq<Entry>, k: nat,
                   atof: string -> Float32, ftoa: Float32 -> string)
    requires k == |es| - 1 && offset <= |text| && Sorted(es)
    requires forall i :: 0 <= i < |es| ==> PlainText(es[i].key) && Representable(es[i].value)
    requires text[offset..] == Join(MemberTexts(es, ftoa)[k..])
    ensures Sorted(es[..k]) && ValuesWellFormed(es[..k])
    ensures ObjectResult(text, offset, es[..k], atof) == Done(JObject(es))
    decreases es, |es| - k, 0
  {
    var e := es[k];
    var r := Render(e.value, ftoa);
    MembersPrefix(es, k);
    ParseQuoted(e.key, atof);
    var mid, tail := MemberAt(text, offset, es, k, atof, ftoa);
    ValueText(e.value, r, atof, ftoa);
    SegmentLast(text, mid, r, ',');
    ObjectStep(text, offset, es[..k], "\"" + e.key + "\"", e.key, mid, r, e.value, |text|, atof);
    assert es[..k + 1] == es;
  }

  /** A member followed by a `,` is added to the map, and parsing goes on
      after the `,`. */
  lemma NextMember(text: string, offset: nat, es: seq<Entry>, k: nat,
                   atof: string -> Float32, ftoa: Float32 -> string)
      returns (next: nat)
    requires k < |es| - 1 && offset <= |text| && Sorted(es)
    requires forall i :: 0 <= i < |es| ==> PlainText(es[i].key) && Representable(es[i].value)
    requires text[offset..] == Join(MemberTexts(es, ftoa)[k..])
    ensures Sorted(es[..k]) && ValuesWellFormed(es[..k])
    ensures Sorted(es[..k + 1]) && ValuesWellFormed(es[..k + 1])
    ensures next <= |text| && text[next..] == Join(MemberTexts(es, ftoa)[k + 1..])
    ensures ObjectResult(text, offset, es[..k], atof) == ObjectResult(text, next, es[..k + 1], atof)
    decreases es, |es| - k, 0
  {
    var e := es[k];
    var r := Render(e.value, ftoa);
    var rest := Join(MemberTexts(es, ftoa)[k + 1..]);
    MembersPrefix(es, k);
    MembersPrefix(es, k + 1);
    ParseQuoted(e.key, atof);
    var mid, tail := MemberAt(text, offset, es, k, atof, ftoa);
    ValueText(e.value, r, atof, ftoa);
    next := SegmentThenRest(text, mid, r, rest);
    ObjectStep(text, offset, es[..k], "\"" + e.key + "\"", e.key, mid, r, e.value, next, atof);
  }

  /** The text `r` of a representable value parses back to the value and
      can be cut out of a `,`-separated body. */
  lemma ValueText(v: Var, r: string, atof: string -> Float32, ftoa: Float32 -> string)
    requires Representable(v) && r == Render(v, ftoa)
    ensures |r| > 0 && r[|r| - 1] != ',' && WellFormed(v)
    ensures ParseResult(r, atof) == Done(v) && Moves(r, [], [], ',')
    decreases v, 1
  {
    RepresentableWellFormed(v);
    RoundTrip(v, atof, ftoa);
    RenderScan(v, ftoa, [], ',');
    RenderEnds(v, ftoa);
  }

  /** The joined member texts from index `k` on: the quoted key of member `k`,
      `:`, its value's text, then the rest after a `,`. */
  lemma MemberLayout(es: seq<Entry>, ftoa: Float32 -> string, k: nat)
    requires k < |es|
    ensures var texts := MemberTexts(es, ftoa);
      var r := Render(es[k].value, ftoa);
      Join(texts[k..]) ==
        "\"" + es[k].key + "\"" + [':'] +
        (if k == |es| - 1 then r else r + [','] + Join(texts[k + 1..]))
  {
    var texts := MemberTexts(es, ftoa);
    JoinFrom(texts, k);
    MemberSplit(es[k].key, Render(es[k].value, ftoa), if k == |es| - 1 then "" else Join(texts[k + 1..]), k == |es| - 1);
  }

  /** Join from index `k`: the part at `k`, then the rest after a `,`. */
  lemma JoinFrom(texts: seq<string>, k: nat)
    requires k < |texts|
    ensures Join(texts[k..]) ==
      if k == |texts| - 1 then texts[k] else texts[k] + "," + Join(texts[k + 1..])
  {
    if k < |texts| - 1 {
      assert texts[k..][1..] == texts[k + 1..];
    } else {
      assert texts[k..] == [texts[k]];
    }
  }

  lemma MemberSplit(key: string, r: string, rest: string, last: bool)
    ensures (if last then Member(key, r) else Member(key, r) + "," + rest) ==
      "\"" + key + "\"" + [':'] + (if last then r else r + [','] + rest)
  {
  }

  /** The members before `k` form a map, and the member at `k`, whose key is
      above all of theirs, is appended by map assignment. */
  lemma MembersPrefix(es: seq<Entry>, k: nat)
    requires k < |es| && Sorted(es)
    requires forall i :: 0 <= i < |es| ==> Representable(es[i].value)
    ensures Sorted(es[..k]) && ValuesWellFormed(es[..k])
    ensures Put(es[..k], es[k].key, es[k].value) == es[..k + 1]
  {
    SortedPrefix(es, k);
    SortedPrefix(es, k + 1);
    forall i | 0 <= i < k ensures WellFormed(es[..k][i].value) { RepresentableWellFormed(es[i].value); }
    assert es[..k] + [es[k]] == es[..k + 1];
    PutAbove(es[..k], es[k]);
  }

  /** ParseKV cuts a quoted plain key off at the `:` after it. */
  lemma KeySegment(text: string, offset: nat, key: string, tail: string)
    requires offset < |text| && PlainText(key)
    requires text[offset..] == "\"" + key + "\"" + [':'] + tail
    ensures NextSegment(text, offset, ':') == Segment("\"" + key + "\"", offset + |key| + 3)
    ensures text[offset + |key| + 3..] == tail
  {
    QuotedMoves(key, [], ':');
    SegmentBefore(text, offset, "\"" + key + "\"", ':', tail);
    assert text[offset + |key| + 3..] == text[offset..][|key| + 3..];
  }

  /** Stringify and Parse agree on the text too: parsing the text of a
      representable value and stringifying the result gives the same text. */
  lemma TextRoundTrip(v: Var, atof: string -> Float32, ftoa: Float32 -> string)
    requires Representable(v)
    ensures var p := ParseResult(Render(v, ftoa), atof);
      p.Done? && Render(p.value, ftoa) == Render(v, ftoa)
  {
    RoundTrip(v, atof, ftoa);
  }

  /** The text of an empty array or object does not parse back: the lone
      closing bracket goes to ParseAsInt and fails its digit assert. The
      text of Null, being empty, is all whitespace. */
  lemma UnrepresentableTexts(atof: string -> Float32, ftoa: Float32 -> string)
    ensures ParseResult(Render(JArray([]), ftoa), atof) == AssertFailed
    ensures ParseResult(Render(JObject([]), ftoa), atof) == AssertFailed
    ensures ParseResult(Render(JNull, ftoa), atof) == Undefined
  {
    TrimIdentity("]");
    TrimIdentity("}");
    assert "]"[0..] == "]" && "}"[0..] == "}";
  }

  /** The order in which an object's members are written does not change the
      value parsed: `{"x":d,"y":e}` and `{"y":e,"x":d}` parse to the same Object. */
  lemma ParseMemberOrder(x: char, d: char, y: char, e: char, atof: string -> Float32)
    requires PlainKeyChar(x) && PlainKeyChar(y) && x != y && IsDigit(d) && IsDigit(e)
    ensures ParseResult("{" + TwoMembers(x, d, y, e) + "}", atof).Done?
    ensures ParseResult("{" + TwoMembers(x, d, y, e) + "}", atof) ==
            ParseResult("{" + TwoMembers(y, e, x, d) + "}", atof)
  {
    TwoMemberBody(x, d, y, e, atof);
    TwoMemberBody(y, e, x, d, atof);
    ParseBraced(TwoMembers(x, d, y, e), atof);
    ParseBraced(TwoMembers(y, e, x, d), atof);
    assert [x] != [y] by { assert [x][0] == x && [y][0] == y; }
    PutCommutes([], [x], JInt(DigitValue(d)), [y], JInt(DigitValue(e)));
  }
}
