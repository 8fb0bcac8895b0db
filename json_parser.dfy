/** Json::Parse and the Var::ParseAs* routines of Json.cpp.

    A parse either finishes with a value, fails one of the source's `assert`s on
    the input text, or reaches behaviour the C++ language leaves undefined (an
    index before the start of the text, a reversed substring range, signed
    overflow). The last two are kept apart so that every input has exactly one
    modelled outcome. */
module JsonParser {
  import opened JsonValue
  import opened JsonScanner

  /** WHITESPACE_CHARS */
  const WHITESPACE: set<char> := {' ', '\n', '\t', '\r'}

  datatype Outcome = Done(value: Var) | AssertFailed | Undefined

  /** Some character of `s` lies outside `del`. */
  predicate HasContent(s: string, del: set<char>)
  {
    exists i :: 0 <= i < |s| && s[i] !in del
  }

  /** The first index whose character is not in `del`. */
  function FirstNotIn(s: string, del: set<char>): (r: nat)
    requires HasContent(s, del)
    ensures r < |s| && s[r] !in del
    ensures forall j :: 0 <= j < r ==> s[j] in del
  {
    if s[0] !in del then 0
    else
      assert HasContent(s[1..], del) by {
        var i :| 0 <= i < |s| && s[i] !in del;
        assert s[1..][i - 1] == s[i];
      }
      1 + FirstNotIn(s[1..], del)
  }

  /** The last index whose character is not in `del`. */
  function LastNotIn(s: string, del: set<char>): (r: nat)
    requires HasContent(s, del)
    ensures r < |s| && s[r] !in del
    ensures forall j :: r < j < |s| ==> s[j] in del
  {
    if s[|s| - 1] !in del then |s| - 1
    else
      assert HasContent(s[..|s| - 1], del) by {
        var i :| 0 <= i < |s| && s[i] !in del;
        assert s[..|s| - 1][i] == s[i];
      }
      LastNotIn(s[..|s| - 1], del)
  }

  /** Json::FindFirstNotOf. Ascending, it returns the first index outside `del`,
      or 0 when there is none. Descending, its `size_t i >= 0` loop only ends by
      finding such an index; with none it reads before the start of the string,
      so callers must supply one. */
  method FindFirstNotOf(str: string, del: set<char>, bAsc: bool) returns (r: nat)
    requires !bAsc ==> HasContent(str, del)
    ensures bAsc && HasContent(str, del) ==> r == FirstNotIn(str, del)
    ensures bAsc && !HasContent(str, del) ==> r == 0
    ensures !bAsc ==> r == LastNotIn(str, del)
  {
    if bAsc {
      var i := 0;
      while i < |str|
        invariant 0 <= i <= |str|
        invariant forall j :: 0 <= j < i ==> str[j] in del
      {
        if str[i] !in del {
          return i;
        }
        i := i + 1;
      }
      return 0;
    } else {
      var i := |str| - 1;
      while str[i] in del
        invariant 0 <= i < |str|
        invariant forall j :: i < j < |str| ==> str[j] in del
        invariant exists k :: 0 <= k <= i && str[k] !in del
        decreases i
      {
        i := i - 1;
      }
      return i;
    }
  }

  /** The text between the first and the last character that is not whitespace. */
  function Trim(js: string): (r: string)
    requires HasContent(js, WHITESPACE)
    ensures 0 < |r| <= |js|
    ensures r[0] !in WHITESPACE && r[|r| - 1] !in WHITESPACE
  {
    js[FirstNotIn(js, WHITESPACE)..LastNotIn(js, WHITESPACE) + 1]
  }

  /** Text that neither starts nor ends with whitespace is its own trim. */
  lemma TrimIdentity(js: string)
    requires |js| > 0 && js[0] !in WHITESPACE && js[|js| - 1] !in WHITESPACE
    ensures HasContent(js, WHITESPACE) && Trim(js) == js
  {
    assert js[0] !in WHITESPACE;
    var b, e := FirstNotIn(js, WHITESPACE), LastNotIn(js, WHITESPACE);
    assert b == 0 && e == |js| - 1;
  }

  /** Whitespace added at either end leaves the trimmed text alone. */
  lemma TrimPadded(pre: string, js: string, post: string)
    requires HasContent(js, WHITESPACE)
    requires forall i :: 0 <= i < |pre| ==> pre[i] in WHITESPACE
    requires forall i :: 0 <= i < |post| ==> post[i] in WHITESPACE
    ensures HasContent(pre + js + post, WHITESPACE)
    ensures Trim(pre + js + post) == Trim(js)
  {
    PaddedFirst(pre, js, post);
    PaddedLast(pre, js, post);
    TrimOfPadded(pre, js, post);
  }

  /** The trim of the padded text, once its first and last non-whitespace
      indices are known to be those of `js` shifted by `|pre|`. */
  lemma TrimOfPadded(pre: string, js: string, post: string)
    requires HasContent(js, WHITESPACE) && HasContent(pre + js + post, WHITESPACE)
    requires FirstNotIn(pre + js + post, WHITESPACE) == |pre| + FirstNotIn(js, WHITESPACE)
    requires LastNotIn(pre + js + post, WHITESPACE) == |pre| + LastNotIn(js, WHITESPACE)
    ensures Trim(pre + js + post) == Trim(js)
  {
    var b, e := FirstNotIn(js, WHITESPACE), LastNotIn(js, WHITESPACE);
    FirstNotAfterLast(js, WHITESPACE);
    SliceOfMiddle(pre, js, post, b, e);
    TrimShifted(pre + js + post, js, |pre|, b, e);
  }

  /** A text whose trimmed range is that of `js` moved up by `d`, with the
      same characters, has the same trim. */
  lemma TrimShifted(t: string, js: string, d: nat, b: nat, e: nat)
    requires HasContent(js, WHITESPACE) && HasContent(t, WHITESPACE)
    requires b == FirstNotIn(js, WHITESPACE) && e == LastNotIn(js, WHITESPACE) && b <= e
    requires FirstNotIn(t, WHITESPACE) == d + b && LastNotIn(t, WHITESPACE) == d + e
    requires t[d + b..d + e + 1] == js[b..e + 1]
    ensures Trim(t) == Trim(js)
  {
    assert Trim(t) == t[d + b..d + e + 1];
    assert Trim(js) == js[b..e + 1];
  }

  lemma FirstNotAfterLast(s: string, del: set<char>)
    requires HasContent(s, del)
    ensures FirstNotIn(s, del) <= LastNotIn(s, del)
  {
    assert s[FirstNotIn(s, del)] !in del;
  }

  lemma SliceOfMiddle(pre: string, js: string, post: string, lo: nat, last: nat)
    requires lo <= last < |js|
    ensures (pre + js + post)[|pre| + lo..|pre| + last + 1] == js[lo..last + 1]
  {
  }

  lemma PaddedFirst(pre: string, js: string, post: string)
    requires HasContent(js, WHITESPACE)
    requires forall i :: 0 <= i < |pre| ==> pre[i] in WHITESPACE
    ensures HasContent(pre + js + post, WHITESPACE)
    ensures FirstNotIn(pre + js + post, WHITESPACE) == |pre| + FirstNotIn(js, WHITESPACE)
  {
    var t := pre + js + post;
    var b := FirstNotIn(js, WHITESPACE);
    assert t[|pre| + b] == js[b];
    forall j | 0 <= j < |pre| + b ensures t[j] in WHITESPACE {
      if j < |pre| { assert t[j] == pre[j]; } else { assert t[j] == js[j - |pre|]; }
    }
    FirstNotInIs(t, WHITESPACE, |pre| + b);
  }

  lemma PaddedLast(pre: string, js: string, post: string)
    requires HasContent(js, WHITESPACE)
    requires forall i :: 0 <= i < |post| ==> post[i] in WHITESPACE
    ensures HasContent(pre + js + post, WHITESPACE)
    ensures LastNotIn(pre + js + post, WHITESPACE) == |pre| + LastNotIn(js, WHITESPACE)
  {
    var t := pre + js + post;
    var e := LastNotIn(js, WHITESPACE);
    assert t[|pre| + e] == js[e];
    forall j | |pre| + e < j < |t| ensures t[j] in WHITESPACE {
      if j < |pre| + |js| { assert t[j] == js[j - |pre|]; } else { assert t[j] == post[j - |pre| - |js|]; }
    }
    LastNotInIs(t, WHITESPACE, |pre| + e);
  }

  lemma FirstNotInIs(s: string, del: set<char>, k: nat)
    requires k < |s| && s[k] !in del
    requires forall j :: 0 <= j < k ==> s[j] in del
    ensures HasContent(s, del) && FirstNotIn(s, del) == k
  {
  }

  lemma LastNotInIs(s: string, del: set<char>, k: nat)
    requires k < |s| && s[k] !in del
    requires forall j :: k < j < |s| ==> s[j] in del
    ensures HasContent(s, del) && LastNotIn(s, del) == k
  {
  }

  /** The characters strictly between the first and the last. */
  function Inner(fixed: string): (r: string)
    requires |fixed| >= 2
    ensures |r| == |fixed| - 2
    ensures forall i :: 0 <= i < |r| ==> r[i] == fixed[i + 1]
  {
    fixed[1..|fixed| - 1]
  }

  /** `ch >= '0' && ch <= '9'` */
  predicate IsDigit(c: char)
  {
    '0' <= c <= '9'
  }

  predicate AllDigits(ds: string)
  {
    forall i :: 0 <= i < |ds| ==> IsDigit(ds[i])
  }

  /** `ch - 48` for a decimal digit. */
  function DigitValue(c: char): (d: nat)
    requires IsDigit(c)
    ensures d <= 9
  {
    c as int - '0' as int
  }

  /** The number a string of decimal digits denotes, most significant first. */
  function DecimalValue(ds: string): nat
    requires AllDigits(ds)
  {
    if |ds| == 0 then 0 else 10 * DecimalValue(ds[..|ds| - 1]) + DigitValue(ds[|ds| - 1])
  }

  function Pow10(n: nat): (r: nat)
    ensures r >= 1
  {
    if n == 0 then 1 else 10 * Pow10(n - 1)
  }

  /** The accumulating loop of Var::ParseAsInt from a running value `val`: each
      character must be a digit (assert), and `val * 10 + digit` must stay within
      `int`, since signed overflow is undefined. */
  function Accumulate(digits: string, val: nat): (r: Outcome)
    requires val <= INT32_MAX
    ensures r.Done? ==> r.value.JInt? && r.value.i >= 0
  {
    if |digits| == 0 then Done(JInt(val))
    else if !IsDigit(digits[0]) then AssertFailed
    else if val * 10 + DigitValue(digits[0]) > INT32_MAX then Undefined
    else Accumulate(digits[1..], val * 10 + DigitValue(digits[0]))
  }

  /** Var::ParseAsInt: an optional leading `-`, then the accumulating loop, then
      the sign applied. A text that is just `-` gives 0. */
  function IntResult(text: string): (r: Outcome)
    ensures r.Done? ==> r.value.JInt?
  {
    var neg := |text| > 0 && text[0] == '-';
    var r := Accumulate(text[if neg then 1 else 0..], 0);
    if neg && r.Done? && r.value.JInt? then Done(JInt(-r.value.i)) else r
  }

  /** The leading digit contributes its value times the weight of its position. */
  lemma {:induction false} DecimalValueHead(ds: string)
    requires |ds| > 0 && AllDigits(ds)
    ensures DecimalValue(ds) == DigitValue(ds[0]) * Pow10(|ds| - 1) + DecimalValue(ds[1..])
    decreases |ds|
  {
    if |ds| > 1 {
      var n := |ds| - 1;
      var init := ds[..n];
      DecimalValueHead(init);
      assert init[0] == ds[0] && init[1..] == ds[1..][..n - 1];
      assert ds[1..][n - 1] == ds[n];
      calc {
        DecimalValue(ds);
        10 * DecimalValue(init) + DigitValue(ds[n]);
        10 * (DigitValue(ds[0]) * Pow10(n - 1) + DecimalValue(init[1..])) + DigitValue(ds[n]);
        { DistributeTen(DigitValue(ds[0]), Pow10(n - 1), DecimalValue(init[1..]), DigitValue(ds[n])); }
        DigitValue(ds[0]) * (10 * Pow10(n - 1)) + (10 * DecimalValue(ds[1..][..n - 1]) + DigitValue(ds[1..][n - 1]));
        DigitValue(ds[0]) * Pow10(n) + DecimalValue(ds[1..]);
      }
    } else {
      assert ds[..0] == [] && ds[1..] == [];
    }
  }

  lemma DistributeTen(a: int, p: int, c: int, d: int)
    ensures 10 * (a * p + c) + d == a * (10 * p) + (10 * c + d)
  {
  }

  /** The loop from `val` over `digits` finishes exactly when every character is a
      digit and `val` followed by those digits fits an `int`, and then it yields
      that number. */
  lemma {:induction false} AccumulateValue(digits: string, val: nat)
    requires val <= INT32_MAX
    ensures Accumulate(digits, val).Done? <==>
              AllDigits(digits) && val * Pow10(|digits|) + DecimalValue(digits) <= INT32_MAX
    ensures Accumulate(digits, val).Done? ==>
              Accumulate(digits, val).value == JInt(val * Pow10(|digits|) + DecimalValue(digits))
    decreases |digits|
  {
    if |digits| > 0 && IsDigit(digits[0]) {
      var n := |digits|;
      var next := val * 10 + DigitValue(digits[0]);
      if next <= INT32_MAX {
        AccumulateValue(digits[1..], next);
      }
      AllDigitsTail(digits);
      if AllDigits(digits) {
        DecimalValueHead(digits);
        ShiftDigit(val, DigitValue(digits[0]), Pow10(n - 1), DecimalValue(digits[1..]));
      }
    } else if |digits| == 0 {
      assert DecimalValue(digits) == 0;
    }
  }

  lemma AllDigitsTail(ds: string)
    requires |ds| > 0
    ensures AllDigits(ds) <==> IsDigit(ds[0]) && AllDigits(ds[1..])
  {
    if IsDigit(ds[0]) && AllDigits(ds[1..]) {
      forall i | 0 < i < |ds| ensures IsDigit(ds[i]) { assert ds[i] == ds[1..][i - 1]; }
    }
  }

  /** Appending a digit `d` to `val` and then `n` more digits worth `rest` is
      the same number as `val` followed by all of them, and no smaller than
      `val * 10 + d`. */
  lemma ShiftDigit(val: nat, d: nat, p: nat, rest: nat)
    requires p >= 1
    ensures val * (10 * p) + (d * p + rest) == (val * 10 + d) * p + rest
    ensures (val * 10 + d) * p + rest >= val * 10 + d
  {
    assert (val * 10 + d) * p == val * 10 * p + d * p;
  }

  /** ParseAsInt yields an Int exactly for an optional `-` followed by decimal
      digits whose value fits a 32-bit `int`, and the Int is that signed value:
      `"-042"` gives -42. */
  lemma IntResultValue(text: string)
    ensures var neg := |text| > 0 && text[0] == '-';
      var ds := text[if neg then 1 else 0..];
      && (IntResult(text).Done? <==> AllDigits(ds) && DecimalValue(ds) <= INT32_MAX)
      && (IntResult(text).Done? ==>
            IntResult(text).value.i == if neg then -(DecimalValue(ds) as int) else DecimalValue(ds))
  {
    var neg := |text| > 0 && text[0] == '-';
    AccumulateValue(text[if neg then 1 else 0..], 0);
  }

  /** Var::ParseAsInt. */
  method ParseAsInt(text: string) returns (r: Outcome)
    ensures r == IntResult(text)
  {
    var val: int := 0;
    var bNegative := if |text| > 0 && text[0] == '-' then 1 else 0;
    var i := bNegative;
    while i < |text|
      invariant bNegative <= i <= |text|
      invariant 0 <= val <= INT32_MAX
      invariant Accumulate(text[i..], val) == Accumulate(text[bNegative..], 0)
    {
      var ch := text[i];
      assert text[i..][0] == ch && text[i..][1..] == text[i + 1..];
      if !IsDigit(ch) {
        return AssertFailed;
      }
      if val * 10 + (ch as int - 48) > INT32_MAX {
        return Undefined;
      }
      val := val * 10 + (ch as int - 48);
      i := i + 1;
    }
    assert text[i..] == [];
    if bNegative == 1 {
      val := -val;
    }
    r := Done(JInt(val));
  }

  predicate AllWellFormed(vs: seq<Var>)
  {
    forall i :: 0 <= i < |vs| ==> WellFormed(vs[i])
  }

  predicate ValuesWellFormed(es: seq<Entry>)
  {
    forall i :: 0 <= i < |es| ==> WellFormed(es[i].value)
  }

  /** Json::Parse on `js`, with `atof` standing for the C library's conversion
      of a decimal text to a float. The text is trimmed of whitespace at both
      ends and classified by its first and last characters. The substring
      between them is taken only in the branches that use it (see
      InnerTextAsWritten for what the source does instead), and the
      branch between float and int asks whether the text contains a `.` (see
      FloatBranchAsWritten). Every value it produces keeps std::map's order. */
  function ParseResult(js: string, atof: string -> Float32): (r: Outcome)
    ensures r.Done? ==> WellFormed(r.value)
    decreases |js|, 1
  {
    if !HasContent(js, WHITESPACE) then Undefined
    else Classify(Trim(js), |js| > 1, atof)
  }

  /** The switch of Json::Parse on the trimmed text `fixed`; `longEnough` is the
      `js.length() > 1` test, which looks at the untrimmed text. */
  function Classify(fixed: string, longEnough: bool, atof: string -> Float32): (r: Outcome)
    requires |fixed| > 0
    ensures r.Done? ==> WellFormed(r.value)
    decreases |fixed|, 0
  {
    var ch, chL := fixed[0], fixed[|fixed| - 1];
    if ch == '{' then
      if chL == '}' then ObjectResult(Inner(fixed), 0, [], atof) else Done(JNull)
    else if ch == '[' then
      if chL == ']' then ArrayResult(Inner(fixed), 0, [], atof) else Done(JNull)
    else if ch == '"' then
      if chL == '"' && longEnough then
        if |fixed| >= 2 then Done(JString(Inner(fixed))) else Undefined
      else Done(JNull)
    else if fixed == "true" then Done(JBool(true))
    else if fixed == "false" then Done(JBool(false))
    else if '.' in fixed then Done(JFloat(atof(fixed)))
    else IntResult(fixed)
  }

  /** The loop of Var::ParseAsArray from `offset` with the elements `acc`
      collected so far: each `,`-segment is parsed in turn, an empty one leaves
      the whole result Null, and a failure inside ends the parse. */
  function ArrayResult(text: string, offset: nat, acc: seq<Var>, atof: string -> Float32): (r: Outcome)
    requires offset <= |text|
    requires AllWellFormed(acc)
    ensures r.Done? ==> WellFormed(r.value)
    decreases |text| - offset, 3
  {
    if offset == |text| then Done(JArray(acc))
    else
      match NextSegment(text, offset, ',')
      case Unbalanced => AssertFailed
      case Segment(encVal, next) =>
        if |encVal| == 0 then Done(JNull)
        else
          match ParseResult(encVal, atof)
          case Done(v) => ArrayResult(text, next, acc + [v], atof)
          case failure => failure
  }

  /** The loop of Var::ParseAsObject from `offset` with the map `acc` built so
      far: a `:`-segment that must parse to a String, then a `,`-segment for its
      value, stored with map assignment so a repeated key keeps its last value.
      An empty segment leaves the whole result Null. A key segment that runs to
      the end of the text leaves ParseKV nothing to scan for the value, and its
      `encoded.back()` on the empty result is undefined. */
  function ObjectResult(text: string, offset: nat, acc: seq<Entry>, atof: string -> Float32): (r: Outcome)
    requires offset <= |text|
    requires Sorted(acc) && ValuesWellFormed(acc)
    ensures r.Done? ==> WellFormed(r.value)
    decreases |text| - offset, 3
  {
    if offset == |text| then Done(JObject(acc))
    else
      match NextSegment(text, offset, ':')
      case Unbalanced => AssertFailed
      case Segment(encKey, mid) =>
        if |encKey| == 0 then Done(JNull)
        else
          match ParseResult(encKey, atof)
          case Done(key) =>
            if !key.JString? then AssertFailed
            else if mid == |text| then Undefined
            else
              ValueThenRest(text, mid, acc, key.s, atof)
          case failure => failure
  }

  /** The value half of one member of Var::ParseAsObject: the `,`-segment from
      `mid` parsed and stored under `key`, then the rest of the body. */
  function ValueThenRest(text: string, mid: nat, acc: seq<Entry>, key: string, atof: string -> Float32): (r: Outcome)
    requires mid < |text|
    requires Sorted(acc) && ValuesWellFormed(acc)
    ensures r.Done? ==> WellFormed(r.value)
    decreases |text| - mid, 2
  {
    match NextSegment(text, mid, ',')
    case Unbalanced => AssertFailed
    case Segment(encVal, next) =>
      if |encVal| == 0 then Done(JNull)
      else
        match ParseResult(encVal, atof)
        case Done(v) => ObjectResult(text, next, Put(acc, key, v), atof)
        case failure => failure
  }

  /** Json::Parse. */
  method Parse(js: string, atof: string -> Float32) returns (r: Outcome)
    ensures r == ParseResult(js, atof)
    decreases |js|, 1
  {
    var beg := FindFirstNotOf(js, WHITESPACE, true);
    if !HasContent(js, WHITESPACE) {
      // the descending search would run past the start of `js`
      return Undefined;
    }
    var end := FindFirstNotOf(js, WHITESPACE, false);
    end := end + 1;
    var fixed := js[beg..end];
    assert ParseResult(js, atof) == Classify(fixed, |js| > 1, atof);
    r := ParseTrimmed(fixed, |js| > 1, atof);
  }

  /** The switch of Json::Parse on the first and last characters of the
      trimmed text; `longEnough` is the `js.length() > 1` test. */
  method ParseTrimmed(fixed: string, longEnough: bool, atof: string -> Float32) returns (r: Outcome)
    requires |fixed| > 0
    ensures r == Classify(fixed, longEnough, atof)
    decreases |fixed|, 0
  {
    var ch := fixed[0];
    var chL := fixed[|fixed| - 1];
    if ch == '{' {
      r := Done(JNull);
      if chL == '}' {
        r := ParseAsObject(fixed[1..|fixed| - 1], atof);
      }
    } else if ch == '[' {
      r := Done(JNull);
      if chL == ']' {
        r := ParseAsArray(fixed[1..|fixed| - 1], atof);
      }
    } else if ch == '"' {
      r := Done(JNull);
      if chL == '"' && longEnough {
        if |fixed| < 2 {
          return Undefined;
        }
        r := Done(JString(fixed[1..|fixed| - 1]));
      }
    } else if fixed == "true" {
      r := Done(JBool(true));
    } else if fixed == "false" {
      r := Done(JBool(false));
    } else if '.' in fixed {
      r := Done(JFloat(atof(fixed)));
    } else {
      r := ParseAsInt(fixed);
    }
  }

  /** Var::ParseAsArray. */
  method ParseAsArray(text: string, atof: string -> Float32) returns (r: Outcome)
    ensures r == ArrayResult(text, 0, [], atof)
    decreases |text|, 3
  {
    var result: seq<Var> := [];
    var offset := 0;
    while offset < |text|
      invariant offset <= |text|
      invariant AllWellFormed(result)
      invariant ArrayResult(text, offset, result, atof) == ArrayResult(text, 0, [], atof)
      decreases |text| - offset
    {
      var encVal := ParseKV(text, offset, ',');
      if encVal.Unbalanced? {
        return AssertFailed;
      }
      if |encVal.text| == 0 {
        return Done(JNull);
      }
      var v := Parse(encVal.text, atof);
      if !v.Done? {
        return v;
      }
      result := result + [v.value];
      offset := encVal.next;
    }
    r := Done(JArray(result));
  }

  /** Var::ParseAsObject. */
  method ParseAsObject(text: string, atof: string -> Float32) returns (r: Outcome)
    ensures r == ObjectResult(text, 0, [], atof)
    decreases |text|, 3
  {
    var result: seq<Entry> := [];
    var offset := 0;
    while offset < |text|
      invariant offset <= |text|
      invariant Sorted(result) && ValuesWellFormed(result)
      invariant ObjectResult(text, offset, result, atof) == ObjectResult(text, 0, [], atof)
      decreases |text| - offset
    {
      var encKey := ParseKV(text, offset, ':');
      if encKey.Unbalanced? {
        return AssertFailed;
      }
      if |encKey.text| == 0 {
        return Done(JNull);
      }
      var key := Parse(encKey.text, atof);
      if !key.Done? {
        return key;
      }
      if !key.value.JString? {
        return AssertFailed;
      }
      if encKey.next == |text| {
        return Undefined;
      }
      var encVal := ParseKV(text, encKey.next, ',');
      if encVal.Unbalanced? {
        return AssertFailed;
      }
      if |encVal.text| == 0 {
        return Done(JNull);
      }
      var v := Parse(encVal.text, atof);
      if !v.Done? {
        return v;
      }
      result := Put(result, key.value.s, v.value);
      offset := encVal.next;
    }
    r := Done(JObject(result));
  }

  /** Leading and trailing whitespace is ignored, except around a lone `"`,
      whose outcome depends on the length of the untrimmed text. */
  lemma ParseIgnoresPadding(pre: string, js: string, post: string, atof: string -> Float32)
    requires HasContent(js, WHITESPACE) && js != "\""
    requires forall i :: 0 <= i < |pre| ==> pre[i] in WHITESPACE
    requires forall i :: 0 <= i < |post| ==> post[i] in WHITESPACE
    ensures ParseResult(pre + js + post, atof) == ParseResult(js, atof)
  {
    TrimPadded(pre, js, post);
    if |js| == 1 {
      TrimIdentity(js);
      assert js[0] != '"' by {
        assert js == [js[0]];
      }
    }
  }

  /** Padding a lone `"` turns the Null it parses to into the reversed range. */
  lemma PaddedQuote(js: string, atof: string -> Float32)
    requires js == "\""
    ensures ParseResult(js, atof) == Done(JNull)
    ensures ParseResult(" " + js, atof) == Undefined
  {
    TrimIdentity(js);
    TrimPadded(" ", js, "");
    assert " " + js + "" == " " + js;
  }

  /** One member of an object body: a key segment that parses to a String and
      a value segment that parses to `v` store `v` under that key, and the
      parse goes on after the value segment. */
  lemma ObjectStep(text: string, offset: nat, acc: seq<Entry>, keyText: string, key: string,
                   mid: nat, valText: string, v: Var, next: nat, atof: string -> Float32)
    requires offset < mid < next <= |text|
    requires Sorted(acc) && ValuesWellFormed(acc) && WellFormed(v)
    requires NextSegment(text, offset, ':') == Segment(keyText, mid) && |keyText| > 0
    requires ParseResult(keyText, atof) == Done(JString(key))
    requires NextSegment(text, mid, ',') == Segment(valText, next) && |valText| > 0
    requires ParseResult(valText, atof) == Done(v)
    ensures ObjectResult(text, offset, acc, atof) == ObjectResult(text, next, Put(acc, key, v), atof)
  {
    assert ValueThenRest(text, mid, acc, key, atof) == ObjectResult(text, next, Put(acc, key, v), atof);
  }

  /** One element of an array body: a segment that parses to `v` appends `v`,
      and the parse goes on after the segment. */
  lemma ArrayStep(text: string, offset: nat, acc: seq<Var>, valText: string, v: Var, next: nat,
                  atof: string -> Float32)
    requires offset < next <= |text|
    requires AllWellFormed(acc) && WellFormed(v)
    requires NextSegment(text, offset, ',') == Segment(valText, next) && |valText| > 0
    requires ParseResult(valText, atof) == Done(v)
    ensures ArrayResult(text, offset, acc, atof) == ArrayResult(text, next, acc + [v], atof)
  {
  }

  /** Text in braces is parsed as an object body, text in brackets as an array
      body. */
  lemma ParseBraced(body: string, atof: string -> Float32)
    ensures ParseResult("{" + body + "}", atof) == ObjectResult(body, 0, [], atof)
    ensures ParseResult("[" + body + "]", atof) == ArrayResult(body, 0, [], atof)
  {
    TrimIdentity("{" + body + "}");
    assert Inner("{" + body + "}") == body;
    TrimIdentity("[" + body + "]");
    assert Inner("[" + body + "]") == body;
  }

  /** A quoted text becomes a String holding exactly the characters between the
      quotes: no escape sequence is interpreted. */
  lemma ParseQuoted(s: string, atof: string -> Float32)
    ensures ParseResult("\"" + s + "\"", atof) == Done(JString(s))
  {
    var js := "\"" + s + "\"";
    TrimIdentity(js);
    assert Inner(js) == s;
  }

  lemma ParseLiterals(atof: string -> Float32)
    ensures ParseResult("true", atof) == Done(JBool(true))
    ensures ParseResult("false", atof) == Done(JBool(false))
    ensures ParseResult("null", atof) == AssertFailed
  {
    TrimIdentity("true");
    TrimIdentity("false");
    TrimIdentity("null");
    assert "null"[0..] == "null";
  }

  lemma ParseNegativeInt(atof: string -> Float32)
    ensures ParseResult("-042", atof) == Done(JInt(-42))
  {
    TrimIdentity("-042");
    assert "-042"[1..] == "042";
    IntResultValue("-042");
    assert "042"[..2] == "04" && "04"[..1] == "0" && "0"[..0] == "";
    assert DecimalValue("042") == 42;
  }

  lemma ParseEmptyContainers(atof: string -> Float32)
    ensures ParseResult("[]", atof) == Done(JArray([]))
    ensures ParseResult("{}", atof) == Done(JObject([]))
  {
    TrimIdentity("[]");
    TrimIdentity("{}");
  }

  /** One digit on its own is an Int of that digit's value. */
  lemma ParseSingleDigit(c: char, atof: string -> Float32)
    requires IsDigit(c)
    ensures ParseResult([c], atof) == Done(JInt(DigitValue(c)))
  {
    TrimIdentity([c]);
    IntResultValue([c]);
    assert [c][..0] == [];
  }

  /** An empty element anywhere leaves the whole array Null. */
  lemma ParseEmptyElement(atof: string -> Float32)
    ensures ParseResult("[1,,2]", atof) == Done(JNull)
  {
    var body := "1,,2";
    assert "[1,,2]" == "[" + body + "]";
    ParseBraced(body, atof);
    EmptyElementBody(body, atof);
  }

  lemma EmptyElementBody(body: string, atof: string -> Float32)
    requires body == "1,,2"
    ensures ArrayResult(body, 0, [], atof) == Done(JNull)
  {
    assert body[0..] == body && body[1..] == ",,2" && body[2..] == ",2" && body[2..][1..] == "2";
    assert body[0] == '1' && body[1..][0] == ',' && body[2..][0] == ',';
    assert ScanFrom(body[1..], [], ',') == Scan(1, [], true);
    assert ScanFrom(body, [], ',') == Scan(2, [], true);
    assert ScanFrom(body[2..], [], ',') == Scan(1, [], true);
    assert body[..2] == "1," && body[2..][..1] == ",";
    assert NextSegment(body, 0, ',') == Segment("1", 2);
    assert NextSegment(body, 2, ',') == Segment("", 3);
    ParseSingleDigit('1', atof);
    ArrayStep(body, 0, [], "1", JInt(1), 2, atof);
  }

  /** A key given twice keeps the value given last. */
  lemma ParseRepeatedKey(js: string, atof: string -> Float32)
    requires js == "{\"a\":1,\"a\":2}"
    ensures ParseResult(js, atof) == Done(JObject([Entry("a", JInt(2))]))
  {
    var body := TwoMembers('a', '1', 'a', '2');
    assert js == "{" + body + "}";
    TwoMemberBody('a', '1', 'a', '2', atof);
    var first := [Entry("a", JInt(1))];
    assert Put([], "a", JInt(1)) == first;
    assert Put(first, "a", JInt(2)) == [Entry("a", JInt(2))];
    ParseBraced(body, atof);
  }

  /** A key character the scanner passes over without pushing or popping
      while it is inside a string. */
  predicate PlainKeyChar(c: char)
  {
    c != '"' && c != '[' && c != '{'
  }

  /** The object body `"x":d,"y":e` with one-character keys and digit values. */
  function TwoMembers(x: char, d: char, y: char, e: char): (r: string)
    ensures |r| == 11 && r[1] == x && r[7] == y && r[4] == d && r[10] == e
  {
    ['"', x, '"', ':', d, ',', '"', y, '"', ':', e]
  }

  /** The body `"x":d,"y":e` stores the two members one after the other. */
  lemma TwoMemberBody(x: char, d: char, y: char, e: char, atof: string -> Float32)
    requires PlainKeyChar(x) && PlainKeyChar(y) && IsDigit(d) && IsDigit(e)
    ensures ObjectResult(TwoMembers(x, d, y, e), 0, [], atof) ==
            Done(JObject(Put(Put([], [x], JInt(DigitValue(d))), [y], JInt(DigitValue(e)))))
  {
    var body := TwoMembers(x, d, y, e);
    TwoMemberParts(body, x, d, y, e, atof);
    TwoMemberSegments(body, x, d, y, e);
    TwoMemberSteps(body, [x], JInt(DigitValue(d)), [y], JInt(DigitValue(e)), atof);
  }

  /** Two members whose segments and parts are known, stored in turn. */
  lemma TwoMemberSteps(body: string, kx: string, vx: Var, ky: string, vy: Var, atof: string -> Float32)
    requires |body| == 11 && WellFormed(vx) && WellFormed(vy)
    requires NextSegment(body, 0, ':') == Segment(body[..3], 4)
    requires NextSegment(body, 4, ',') == Segment(body[4..5], 6)
    requires NextSegment(body, 6, ':') == Segment(body[6..9], 10)
    requires NextSegment(body, 10, ',') == Segment(body[10..], 11)
    requires ParseResult(body[..3], atof) == Done(JString(kx))
    requires ParseResult(body[6..9], atof) == Done(JString(ky))
    requires ParseResult(body[4..5], atof) == Done(vx)
    requires ParseResult(body[10..], atof) == Done(vy)
    ensures ObjectResult(body, 0, [], atof) == Done(JObject(Put(Put([], kx, vx), ky, vy)))
  {
    var first := Put([], kx, vx);
    assert first == [Entry(kx, vx)];
    FirstMemberStep(body, kx, vx, atof);
    LastMemberStep(body, 6, first, body[6..9], ky, 10, body[10..], vy, atof);
  }

  /** The first member of an 11-character two-member body. */
  lemma FirstMemberStep(body: string, kx: string, vx: Var, atof: string -> Float32)
    requires |body| == 11 && WellFormed(vx)
    requires NextSegment(body, 0, ':') == Segment(body[..3], 4)
    requires NextSegment(body, 4, ',') == Segment(body[4..5], 6)
    requires ParseResult(body[..3], atof) == Done(JString(kx))
    requires ParseResult(body[4..5], atof) == Done(vx)
    ensures ObjectResult(body, 0, [], atof) == ObjectResult(body, 6, Put([], kx, vx), atof)
  {
    ObjectStep(body, 0, [], body[..3], kx, 4, body[4..5], vx, 6, atof);
  }

  /** The last member of an object body completes the map. */
  lemma LastMemberStep(text: string, offset: nat, acc: seq<Entry>, keyText: string, key: string,
                       mid: nat, valText: string, v: Var, atof: string -> Float32)
    requires offset < mid < |text|
    requires Sorted(acc) && ValuesWellFormed(acc) && WellFormed(v)
    requires NextSegment(text, offset, ':') == Segment(keyText, mid) && |keyText| > 0
    requires ParseResult(keyText, atof) == Done(JString(key))
    requires NextSegment(text, mid, ',') == Segment(valText, |text|) && |valText| > 0
    requires ParseResult(valText, atof) == Done(v)
    ensures ObjectResult(text, offset, acc, atof) == Done(JObject(Put(acc, key, v)))
  {
    ObjectStep(text, offset, acc, keyText, key, mid, valText, v, |text|, atof);
  }

  lemma TwoMemberParts(body: string, x: char, d: char, y: char, e: char, atof: string -> Float32)
    requires body == TwoMembers(x, d, y, e) && IsDigit(d) && IsDigit(e)
    ensures ParseResult(body[..3], atof) == Done(JString([x]))
    ensures ParseResult(body[6..9], atof) == Done(JString([y]))
    ensures ParseResult(body[4..5], atof) == Done(JInt(DigitValue(d)))
    ensures ParseResult(body[10..], atof) == Done(JInt(DigitValue(e)))
  {
    assert body[..3] == "\"" + [x] + "\"";
    assert body[6..9] == "\"" + [y] + "\"";
    ParseQuoted([x], atof);
    ParseQuoted([y], atof);
    assert body[4..5] == [d] && body[10..] == [e];
    ParseSingleDigit(d, atof);
    ParseSingleDigit(e, atof);
  }

  lemma TwoMemberSegments(body: string, x: char, d: char, y: char, e: char)
    requires body == TwoMembers(x, d, y, e)
    requires PlainKeyChar(x) && PlainKeyChar(y) && IsDigit(d) && IsDigit(e)
    ensures NextSegment(body, 0, ':') == Segment(body[..3], 4)
    ensures NextSegment(body, 4, ',') == Segment(body[4..5], 6)
    ensures NextSegment(body, 6, ':') == Segment(body[6..9], 10)
    ensures NextSegment(body, 10, ',') == Segment(body[10..], 11)
  {
    TwoKeySegments(body, x, d, y, e);
    TwoValueSegments(body, x, d, y, e);
  }

  lemma TwoKeySegments(body: string, x: char, d: char, y: char, e: char)
    requires body == TwoMembers(x, d, y, e) && PlainKeyChar(x) && PlainKeyChar(y)
    ensures NextSegment(body, 0, ':') == Segment(body[..3], 4)
    ensures NextSegment(body, 6, ':') == Segment(body[6..9], 10)
  {
    QuotedKeyScan(body);
    QuotedKeyScan(body[6..]);
    assert body[6..][..4] == body[6..10];
  }

  lemma TwoValueSegments(body: string, x: char, d: char, y: char, e: char)
    requires body == TwoMembers(x, d, y, e) && IsDigit(d) && IsDigit(e)
    ensures NextSegment(body, 4, ',') == Segment(body[4..5], 6)
    ensures NextSegment(body, 10, ',') == Segment(body[10..], 11)
  {
    assert body[4..][1..] == body[5..] && body[5..][0] == ',';
    assert ScanFrom(body[4..], [], ',') == Scan(2, [], true);
    assert body[10..] == [e] && body[10..][1..] == "";
    assert ScanFrom(body[10..], [], ',') == Scan(1, [], false);
  }

  /** The scan of a text opening with a one-character quoted key and then `:`
      stops after those four characters. */
  lemma QuotedKeyScan(t: string)
    requires |t| > 4 && t[0] == '"' && PlainKeyChar(t[1]) && t[2] == '"' && t[3] == ':'
    ensures ScanFrom(t, [], ':') == Scan(4, [], true)
  {
    assert t[1..][0] == t[1] && t[2..][0] == '"' && t[3..][0] == ':';
    assert t[1..][1..] == t[2..] && t[2..][1..] == t[3..];
    assert Step([], '"') == ['"'] && Step(['"'], t[1]) == ['"'] && Step(['"'], '"') == [];
    assert ScanFrom(t[3..], [], ':') == Scan(1, [], true);
    assert ScanFrom(t[2..], ['"'], ':') == Scan(2, [], true);
    assert ScanFrom(t[1..], ['"'], ':') == Scan(3, [], true);
  }

  /** Decimal digits that fit an `int` parse to the Int they denote. */
  lemma ParseDigits(ds: string, atof: string -> Float32)
    requires |ds| > 0 && AllDigits(ds) && DecimalValue(ds) <= INT32_MAX
    ensures ParseResult(ds, atof) == Done(JInt(DecimalValue(ds)))
  {
    assert IsDigit(ds[0]) && IsDigit(ds[|ds| - 1]);
    TrimIdentity(ds);
    forall i | 0 <= i < |ds| ensures ds[i] != '.' {
      assert IsDigit(ds[i]);
    }
    assert ds != "true" && ds != "false" by { assert IsDigit(ds[0]); }
    IntResultValue(ds);
    assert ds[0..] == ds;
  }

  /** The range `str(fixed.begin() + 1, fixed.end() - 1)` as Json::Parse
      builds it, before it looks at the first character: the inner text, or
      None where the range is reversed, which std::string leaves undefined. */
  function InnerTextAsWritten(fixed: string): (r: Option<string>)
    requires |fixed| > 0
    ensures r.None? <==> |fixed| == 1
    ensures r.Some? ==> |r.value| == |fixed| - 2
  {
    if |fixed| >= 2 then Some(fixed[1..|fixed| - 1]) else None
  }

  /** As written, every text whose trimmed form is one character (a single
      digit, the elements of `[1,2]`) reaches the reversed range. */
  lemma SingleCharacterAsWritten(js: string)
    requires |js| == 1 && js[0] !in WHITESPACE
    ensures HasContent(js, WHITESPACE) && InnerTextAsWritten(Trim(js)).None?
  {
    TrimIdentity(js);
  }

  /** Taking the range only where it is used, an array of one-digit elements
      parses element by element (and ParseSingleDigit gives each digit its Int). */
  lemma SingleCharacterCorrected(js: string, atof: string -> Float32)
    requires js == "[1,2]"
    ensures ParseResult(js, atof) == Done(JArray([JInt(1), JInt(2)]))
  {
    var body := js[1..4];
    assert js == "[" + body + "]";
    ParseBraced(body, atof);
    OneTwoBody(body, atof);
  }

  lemma OneTwoBody(body: string, atof: string -> Float32)
    requires body == "1,2"
    ensures ArrayResult(body, 0, [], atof) == Done(JArray([JInt(1), JInt(2)]))
  {
    assert body[..1] == [body[0]] && body[2..] == [body[2]] && body[0] == '1' && body[2] == '2';
    ParseSingleDigit(body[0], atof);
    ParseSingleDigit(body[2], atof);
    OneTwoSegments(body);
    ArrayStep(body, 0, [], body[..1], JInt(1), 2, atof);
    assert [] + [JInt(1)] == [JInt(1)];
    ArrayStep(body, 2, [JInt(1)], body[2..], JInt(2), 3, atof);
    assert [JInt(1)] + [JInt(2)] == [JInt(1), JInt(2)];
  }

  lemma OneTwoSegments(body: string)
    requires body == "1,2"
    ensures NextSegment(body, 0, ',') == Segment(body[..1], 2)
    ensures NextSegment(body, 2, ',') == Segment(body[2..], 3)
  {
    assert body[0..] == body && body[1..] == ",2" && body[1..][1..] == "2" && body[2..][1..] == [];
    assert ScanFrom(body[1..], [], ',') == Scan(1, [], true);
    assert ScanFrom(body[0..], [], ',') == Scan(2, [], true);
    assert body[0..][..2][..1] == body[..1];
    assert ScanFrom(body[2..][1..], [], ',') == Scan(0, [], false);
    assert ScanFrom(body[2..], [], ',') == Scan(1, [], false);
    assert body[2..][..1] == body[2..];
  }

  const UINT32_MAX: nat := 0xFFFF_FFFF

  /** std::string::npos where size_t has 32 bits, and where it has 64. */
  const NPOS_32: nat := 0xFFFF_FFFF
  const NPOS_64: nat := 0xFFFF_FFFF_FFFF_FFFF

  /** std::string::find_first_of(c): the first index holding `c`, or npos. */
  function FindFirstOf(s: string, c: char, npos: nat): (r: nat)
    requires |s| < npos
    ensures c in s ==> r < |s| && s[r] == c && forall j :: 0 <= j < r ==> s[j] != c
    ensures c !in s ==> r == npos
  {
    if |s| == 0 then npos
    else if s[0] == c then 0
    else
      var k := FindFirstOf(s[1..], c, npos);
      if k == npos then npos else k + 1
  }

  /** The float test of Json::Parse as written: `find_first_of('.')` compared
      with UINT32_MAX rather than with npos. */
  predicate FloatBranchAsWritten(fixed: string, npos: nat): (r: bool)
    requires |fixed| < npos
    ensures '.' in fixed && |fixed| <= UINT32_MAX ==> r
  {
    FindFirstOf(fixed, '.', npos) != UINT32_MAX
  }

  /** With a 64-bit size_t, npos is not UINT32_MAX, so every text shorter than
      UINT32_MAX takes the float branch: `42` goes to atof. */
  lemma FloatBranchOn64Bit(fixed: string)
    requires |fixed| < UINT32_MAX
    ensures FloatBranchAsWritten(fixed, NPOS_64)
    ensures '.' !in fixed ==> FindFirstOf(fixed, '.', NPOS_64) == NPOS_64
  {
  }

  /** With a 32-bit size_t the test is the intended one: the text contains a `.`. */
  lemma FloatBranchOn32Bit(fixed: string)
    requires |fixed| < NPOS_32
    ensures FloatBranchAsWritten(fixed, NPOS_32) <==> '.' in fixed
  {
  }

  /** The model asks whether the text contains a `.`, so `42` is an Int on every
      platform. */
  lemma FloatBranchCorrected(js: string, atof: string -> Float32)
    requires js == "42"
    ensures !('.' in js) && ParseResult(js, atof) == Done(JInt(42))
  {
    assert AllDigits(js);
    assert js[..1] == "4" && js[..1][..0] == [];
    assert DecimalValue(js[..1]) == 4;
    assert DecimalValue(js) == 10 * 4 + 2;
    ParseDigits(js, atof);
  }
}
