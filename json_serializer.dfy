/** Json::Stringify of Json.cpp: the text of a value, built by appending
    characters and dropping the comma after the last element or member. */
module JsonSerializer {
  import opened JsonValue
  import opened JsonParser

  /** The decimal digits of `n`, most significant first, without leading zeros. */
  function NatToString(n: nat): (r: string)
    ensures |r| > 0 && AllDigits(r) && DecimalValue(r) == n
    ensures |r| > 1 ==> r[0] != '0'
  {
    var last := ['0' + (n % 10) as char];
    if n < 10 then last
    else
      var init := NatToString(n / 10);
      var r := init + last;
      assert r[..|r| - 1] == init;
      r
  }

  /** std::to_string(int): a `-` before the digits of a negative number. */
  function IntToString(i: int): (r: string)
    ensures |r| > 0
    ensures i < 0 ==> r[0] == '-' && r[1..] == NatToString(-i)
    ensures i >= 0 ==> r == NatToString(i)
  {
    if i < 0 then "-" + NatToString(-i) else NatToString(i)
  }

  /** The parts joined with `,` between them. */
  function Join(parts: seq<string>): string
  {
    if |parts| == 0 then ""
    else if |parts| == 1 then parts[0]
    else parts[0] + "," + Join(parts[1..])
  }

  /** Joining one more part adds a `,` and that part at the end. */
  lemma {:induction false} JoinSnoc(parts: seq<string>, p: string)
    requires |parts| > 0
    ensures Join(parts + [p]) == Join(parts) + "," + p
    decreases |parts|
  {
    var all := parts + [p];
    if |parts| > 1 {
      assert all[1..] == parts[1..] + [p];
      JoinSnoc(parts[1..], p);
    } else {
      assert all[1..] == [p];
    }
  }

  /** The text of a value. Null has none. An array or object with elements
      is wrapped in its brackets with its elements, or its `"key":value`
      members in key order, joined by `,`. An empty one is only its closing
      bracket, because the `pop_back` that removes the last comma removes the
      opening bracket instead. `ftoa` stands for std::to_string(float). */
  function Render(v: Var, ftoa: Float32 -> string): (r: string)
    ensures v.JArray? || v.JObject? ==> |r| > 0 && r[|r| - 1] == if v.JArray? then ']' else '}'
    decreases v
  {
    match v
    case JNull => ""
    case JBool(b) => if b then "true" else "false"
    case JInt(i) => IntToString(i)
    case JFloat(f) => ftoa(f)
    case JString(s) => "\"" + s + "\""
    case JArray(es) => if |es| == 0 then "]" else "[" + Join(ElementTexts(es, ftoa)) + "]"
    case JObject(es) => if |es| == 0 then "}" else "{" + Join(MemberTexts(es, ftoa)) + "}"
  }

  /** The text of each element. */
  function ElementTexts(es: seq<Var>, ftoa: Float32 -> string): (r: seq<string>)
    ensures |r| == |es|
    decreases es
  {
    seq(|es|, i requires 0 <= i < |es| => Render(es[i], ftoa))
  }

  /** The text of each member: the quoted key, `:`, the value's text. */
  function MemberTexts(es: seq<Entry>, ftoa: Float32 -> string): (r: seq<string>)
    ensures |r| == |es|
    decreases es
  {
    seq(|es|, i requires 0 <= i < |es| => Member(es[i].key, Render(es[i].value, ftoa)))
  }

  function Member(key: string, valueText: string): string
  {
    "\"" + key + "\":" + valueText
  }

  /** Appends the characters of `text` one at a time. */
  method PushAll(prefix: string, text: string) returns (result: string)
    ensures result == prefix + text
  {
    result := prefix;
    for k := 0 to |text|
      invariant result == prefix + text[..k]
    {
      result := result + [text[k]];
    }
    assert text[..|text|] == text;
  }

  /** Json::Stringify. */
  method Stringify(v: Var, ftoa: Float32 -> string) returns (result: string)
    ensures result == Render(v, ftoa)
    decreases v
  {
    result := "";
    match v {
      case JNull =>
      case JInt(i) =>
        result := PushAll(result, IntToString(i));
      case JFloat(f) =>
        result := PushAll(result, ftoa(f));
      case JBool(b) =>
        result := PushAll(result, if b then "true" else "false");
      case JString(s) =>
        result := result + ['"'];
        result := PushAll(result, s);
        result := result + ['"'];
      case JArray(es) =>
        result := StringifyArray(es, ftoa);
      case JObject(es) =>
        result := StringifyObject(es, ftoa);
    }
  }

  /** The text a Stringify loop has built after `k` parts, each followed by a
      `,`, grows by part `k` and a `,`. */
  lemma JoinExtend(open: string, parts: seq<string>, k: nat)
    requires k < |parts|
    ensures (if k == 0 then open else open + Join(parts[..k]) + ",") + parts[k] + "," ==
            open + Join(parts[..k + 1]) + ","
  {
    if k > 0 {
      JoinSnoc(parts[..k], parts[k]);
      assert parts[..k] + [parts[k]] == parts[..k + 1];
    } else {
      assert parts[..1] == [parts[0]];
    }
  }

  /** Pushing the quoted key, `:`, the value's text and `,` adds the
      member's text and a `,`. */
  lemma MemberPush(before: string, key: string, encVal: string)
    ensures before + ("\"" + key + "\"" + ":") + encVal + [','] == before + Member(key, encVal) + ","
  {
  }

  /** The `pop_back` and the closing bracket after the loop: the last `,` is
      replaced by the bracket, or, with no parts, the opening bracket is. */
  lemma CloseWith(open: char, parts: seq<string>, close: char)
    ensures var text := if |parts| == 0 then [open] else [open] + Join(parts) + ",";
      text[..|text| - 1] + [close] == if |parts| == 0 then [close] else [open] + Join(parts) + [close]
  {
    if |parts| > 0 {
      var text := [open] + Join(parts) + ",";
      assert text[..|text| - 1] == [open] + Join(parts);
    }
  }

  /** The Array case of Json::Stringify. */
  method StringifyArray(es: seq<Var>, ftoa: Float32 -> string) returns (result: string)
    ensures result == Render(JArray(es), ftoa)
    decreases es
  {
    ghost var parts := ElementTexts(es, ftoa);
    result := "[";
    var k := 0;
    while k < |es|
      invariant 0 <= k <= |es|
      invariant result == if k == 0 then "[" else "[" + Join(parts[..k]) + ","
    {
      var encVal := Stringify(es[k], ftoa);
      JoinExtend("[", parts, k);
      result := result + encVal;
      result := result + [','];
      k := k + 1;
    }
    assert parts[..|es|] == parts;
    CloseWith('[', parts, ']');
    result := result[..|result| - 1];
    result := result + [']'];
  }

  /** The Object case of Json::Stringify. */
  method StringifyObject(es: seq<Entry>, ftoa: Float32 -> string) returns (result: string)
    ensures result == Render(JObject(es), ftoa)
    decreases es
  {
    ghost var parts := MemberTexts(es, ftoa);
    result := "{";
    var k := 0;
    while k < |es|
      invariant 0 <= k <= |es|
      invariant result == if k == 0 then "{" else "{" + Join(parts[..k]) + ","
    {
      var member := "\"" + es[k].key + "\"" + ":";
      var encVal := Stringify(es[k].value, ftoa);
      MemberPush(result, es[k].key, encVal);
      JoinExtend("{", parts, k);
      result := result + member;
      result := result + encVal;
      result := result + [','];
      k := k + 1;
    }
    assert parts[..|es|] == parts;
    CloseWith('{', parts, '}');
    result := result[..|result| - 1];
    result := result + ['}'];
  }

  /** Null has no text, and an empty container is only its closing bracket. */
  lemma RenderEdgeCases(ftoa: Float32 -> string)
    ensures Render(JNull, ftoa) == ""
    ensures Render(JArray([]), ftoa) == "]"
    ensures Render(JObject([]), ftoa) == "}"
  {
  }
}
