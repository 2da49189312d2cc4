/** A reader for the text `JSON.stringify` produces, and the proof that it
    reads every serialised value back. Two values therefore serialise to the
    same text exactly when they are the same value, so comparing
    serialisations (as the field-change renderer does) is deep structural
    equality. */
module JsonParse {
  import opened Results
  import opened Text
  import opened Json

  /** What may follow a value inside serialised text: nothing, or the
      punctuation that closes or continues an array or object. */
  predicate Stop(s: string) {
    |s| == 0 || s[0] == ',' || s[0] == ']' || s[0] == '}'
  }

  predicate IsLowerHex(c: char) {
    IsDigit(c) || 'a' <= c <= 'f'
  }

  function HexValue(c: char): (d: nat)
    requires IsLowerHex(c)
    ensures d < 16
  {
    if IsDigit(c) then c as int - '0' as int else c as int - 'a' as int + 10
  }

  lemma HexRoundTrip(d: nat)
    requires d < 16
    ensures IsLowerHex(HexDigit(d)) && HexValue(HexDigit(d)) == d
  {
  }

  /** Reads one possibly escaped character: the character and how many
      characters of `w` it took. */
  function ReadChar(w: string): (r: Option<(char, nat)>)
    ensures r.Some? ==> 1 <= r.value.1 <= |w|
  {
    if |w| == 0 then None
    else if w[0] != '\\' then Some((w[0], 1))
    else if |w| < 2 then None
    else if w[1] == '"' then Some(('"', 2))
    else if w[1] == '\\' then Some(('\\', 2))
    else if w[1] == 'b' then Some(('\U{08}', 2))
    else if w[1] == 't' then Some(('\t', 2))
    else if w[1] == 'n' then Some(('\n', 2))
    else if w[1] == 'f' then Some(('\U{0C}', 2))
    else if w[1] == 'r' then Some(('\r', 2))
    else if w[1] == 'u' && |w| >= 6 && w[2] == '0' && w[3] == '0'
         && IsLowerHex(w[4]) && IsLowerHex(w[5]) && HexValue(w[4]) < 2
    then Some(((16 * HexValue(w[4]) + HexValue(w[5])) as char, 6))
    else None
  }

  /** Reads the body of a string literal up to its closing quote: the
      string and the text after the quote. */
  function ReadString(w: string): (r: Option<(string, string)>)
    ensures r.Some? ==> |r.value.1| < |w|
    decreases |w|
  {
    if |w| == 0 then None
    else if w[0] == '"' then Some(("", w[1..]))
    else
      match ReadChar(w)
      case None => None
      case Some((c, n)) =>
        match ReadString(w[n..])
        case None => None
        case Some((rest, after)) => Some(([c] + rest, after))
  }

  /** The number of decimal digits `w` starts with. */
  function DigitRun(w: string): (k: nat)
    ensures k <= |w|
    ensures forall i :: 0 <= i < k ==> IsDigit(w[i])
    ensures k < |w| ==> !IsDigit(w[k])
  {
    if |w| == 0 || !IsDigit(w[0]) then 0 else 1 + DigitRun(w[1..])
  }

  function ReadNumber(w: string): (r: Option<(Json, string)>)
    ensures r.Some? ==> |r.value.1| < |w|
  {
    if |w| > 0 && w[0] == '-' then
      var k := DigitRun(w[1..]);
      if k == 0 then None else Some((JNum(-(DecimalValue(w[1..][..k]) as int)), w[1..][k..]))
    else
      var k := DigitRun(w);
      if k == 0 then None else Some((JNum(DecimalValue(w[..k])), w[k..]))
  }

  /** Reads one value from the front of `w`: the value and the text after. */
  function ReadValue(w: string): (r: Option<(Json, string)>)
    ensures r.Some? ==> |r.value.1| < |w|
    decreases |w|, 0
  {
    if |w| == 0 then None
    else if w[0] == '[' then ReadArray(w[1..])
    else if w[0] == '{' then ReadObject(w[1..])
    else if w[0] == '"' then
      match ReadString(w[1..])
      case None => None
      case Some((s, after)) => Some((JStr(s), after))
    else if w[0] == 'n' then
      if StartsWith(w, "null") then Some((JNull, w[4..])) else None
    else if w[0] == 't' then
      if StartsWith(w, "true") then Some((JBool(true), w[4..])) else None
    else if w[0] == 'f' then
      if StartsWith(w, "false") then Some((JBool(false), w[5..])) else None
    else ReadNumber(w)
  }

  /** Reads the rest of an array after its `[`. */
  function ReadArray(w: string): (r: Option<(Json, string)>)
    ensures r.Some? ==> |r.value.1| < |w|
    decreases |w|, 2
  {
    if |w| > 0 && w[0] == ']' then Some((JArr([]), w[1..]))
    else
      match ReadItems(w)
      case None => None
      case Some((items, after)) =>
        if |after| > 0 && after[0] == ']' then Some((JArr(items), after[1..])) else None
  }

  /** Reads the rest of an object after its `{`. */
  function ReadObject(w: string): (r: Option<(Json, string)>)
    ensures r.Some? ==> |r.value.1| < |w|
    decreases |w|, 2
  {
    if |w| > 0 && w[0] == '}' then Some((JObj([]), w[1..]))
    else
      match ReadMembers(w)
      case None => None
      case Some((members, after)) =>
        if |after| > 0 && after[0] == '}' then Some((JObj(members), after[1..])) else None
  }

  /** Reads one or more comma-separated values. */
  function ReadItems(w: string): (r: Option<(seq<Json>, string)>)
    ensures r.Some? ==> |r.value.1| < |w|
    decreases |w|, 1
  {
    match ReadValue(w)
    case None => None
    case Some((v, after)) =>
      if |after| > 0 && after[0] == ',' then
        match ReadItems(after[1..])
        case None => None
        case Some((more, rest)) => Some(([v] + more, rest))
      else Some(([v], after))
  }

  /** Reads one `"key":value` member. */
  function ReadMember(w: string): (r: Option<(Member, string)>)
    ensures r.Some? ==> |r.value.1| < |w|
    decreases |w|, 0
  {
    if |w| == 0 || w[0] != '"' then None
    else
      match ReadString(w[1..])
      case None => None
      case Some((key, afterKey)) =>
        if |afterKey| == 0 || afterKey[0] != ':' then None
        else
          match ReadValue(afterKey[1..])
          case None => None
          case Some((v, after)) => Some((Member(key, v), after))
  }

  /** Reads one or more comma-separated members. */
  function ReadMembers(w: string): (r: Option<(seq<Member>, string)>)
    ensures r.Some? ==> |r.value.1| < |w|
    decreases |w|, 1
  {
    match ReadMember(w)
    case None => None
    case Some((m, after)) =>
      if |after| > 0 && after[0] == ',' then
        match ReadMembers(after[1..])
        case None => None
        case Some((more, rest)) => Some(([m] + more, rest))
      else Some(([m], after))
  }

  lemma EscapeCharRead(c: char, u: string)
    ensures ReadChar(EscapeChar(c) + u) == Some((c, |EscapeChar(c)|))
  {
    var e := EscapeChar(c);
    var w := e + u;
    assert w[..|e|] == e;
    if (c as int) < 0x20 && c != '\U{08}' && c != '\t' && c != '\n' && c != '\U{0C}' && c != '\r' {
      HexRoundTrip(c as int / 16);
      HexRoundTrip(c as int % 16);
      assert w[4] == HexDigit(c as int / 16) && w[5] == HexDigit(c as int % 16);
    }
  }

  /** Every escaped string literal reads back as the string it came from. */
  lemma {:induction false} StringRoundTrip(x: string, s: string)
    ensures ReadString(Escape(x) + ("\"" + s)) == Some((x, s))
    decreases |x|
  {
    var w := Escape(x) + ("\"" + s);
    if |x| == 0 {
      assert w == "\"" + s;
      assert w[1..] == s;
    } else {
      var e := EscapeChar(x[0]);
      var tail := Escape(x[1..]) + ("\"" + s);
      assert w == e + tail;
      EscapeCharRead(x[0], tail);
      assert w[|e|..] == tail;
      StringRoundTrip(x[1..], s);
      assert [x[0]] + x[1..] == x;
    }
  }

  lemma {:induction false} DigitRunOf(d: string, s: string)
    requires forall i :: 0 <= i < |d| ==> IsDigit(d[i])
    requires |s| == 0 || !IsDigit(s[0])
    ensures DigitRun(d + s) == |d|
    decreases |d|
  {
    if |d| > 0 {
      assert (d + s)[1..] == d[1..] + s;
      DigitRunOf(d[1..], s);
    }
  }

  lemma NegativeRoundTrip(n: int, s: string)
    requires n < 0 && Stop(s)
    ensures ReadNumber(IntToDecimal(n) + s) == Some((JNum(n), s))
  {
    var d := NatToDecimal(-n);
    assert IntToDecimal(n) + s == "-" + (d + s);
    ReadMinusDigits(d, s);
    DecimalRoundTrip(-n);
  }

  /** A minus sign, a digit run and a non-digit read as a negative number. */
  lemma {:induction false} ReadMinusDigits(d: string, s: string)
    requires |d| > 0 && forall i :: 0 <= i < |d| ==> IsDigit(d[i])
    requires |s| == 0 || !IsDigit(s[0])
    ensures ReadNumber("-" + (d + s)) == Some((JNum(-(DecimalValue(d) as int)), s))
  {
    var w := "-" + (d + s);
    var t := w[1..];
    assert w[0] == '-' && t == d + s;
    DigitRunOf(d, s);
    assert DigitRun(t) == |d|;
    assert t[..|d|] == d && t[|d|..] == s;
    NegativeNumberText(w, |d|);
  }

  /** `ReadNumber` on a minus sign followed by a run of `k` digits. */
  lemma {:induction false} NegativeNumberText(w: string, k: nat)
    requires |w| > 0 && w[0] == '-' && 0 < k && DigitRun(w[1..]) == k
    ensures ReadNumber(w) == Some((JNum(-(DecimalValue(w[1..][..k]) as int)), w[1..][k..]))
  {
  }

  lemma NonNegativeRoundTrip(n: int, s: string)
    requires n >= 0 && Stop(s)
    ensures ReadNumber(IntToDecimal(n) + s) == Some((JNum(n), s))
  {
    var d := NatToDecimal(n);
    var w := d + s;
    DigitRunOf(d, s);
    assert w[..|d|] == d;
    assert w[|d|..] == s;
    DecimalRoundTrip(n);
  }

  lemma NumberRoundTrip(n: int, s: string)
    requires Stop(s)
    ensures ReadValue(IntToDecimal(n) + s) == Some((JNum(n), s))
  {
    var w := IntToDecimal(n) + s;
    assert w[0] == IntToDecimal(n)[0];
    assert ReadValue(w) == ReadNumber(w);
    if n < 0 {
      NegativeRoundTrip(n, s);
    } else {
      NonNegativeRoundTrip(n, s);
    }
  }

  lemma LiteralRoundTrip(v: Json, s: string)
    requires v.JNull? || v.JBool?
    ensures ReadValue(Stringify(v) + s) == Some((v, s))
  {
    var lit := Stringify(v);
    var w := lit + s;
    assert w[..|lit|] == lit && w[|lit|..] == s;
  }

  lemma StrRoundTrip(x: string, s: string)
    ensures ReadValue(Stringify(JStr(x)) + s) == Some((JStr(x), s))
  {
    var w := Stringify(JStr(x)) + s;
    assert w[1..] == Escape(x) + ("\"" + s);
    StringRoundTrip(x, s);
  }

  /** Reading `open + body + close + s` when `body` reads back as `inner`
      followed by `close + s`, or is empty. */
  lemma ArrayText(body: string, items: seq<Json>, s: string)
    requires |body| == 0 <==> |items| == 0
    requires |body| > 0 ==> body[0] != ']' && ReadItems(body + ("]" + s)) == Some((items, "]" + s))
    ensures ReadValue("[" + (body + ("]" + s))) == Some((JArr(items), s))
  {
    var w := "[" + (body + ("]" + s));
    assert w[0] == '[' && w[1..] == body + ("]" + s);
    if |body| == 0 {
      assert w[1..] == "]" + s;
      assert w[1..][1..] == s;
    } else {
      assert w[1..][0] == body[0];
      assert ("]" + s)[1..] == s;
    }
  }

  lemma ObjectText(body: string, members: seq<Member>, s: string)
    requires |body| == 0 <==> |members| == 0
    requires |body| > 0 ==> body[0] != '}' && ReadMembers(body + ("}" + s)) == Some((members, "}" + s))
    ensures ReadValue("{" + (body + ("}" + s))) == Some((JObj(members), s))
  {
    var w := "{" + (body + ("}" + s));
    assert w[0] == '{' && w[1..] == body + ("}" + s);
    if |body| == 0 {
      assert w[1..] == "}" + s;
      assert w[1..][1..] == s;
    } else {
      assert w[1..][0] == body[0];
      assert ("}" + s)[1..] == s;
    }
  }

  /** The array case of `ReadValue`, given that the items read back. */
  lemma ArrayRead(items: seq<Json>, s: string)
    requires |items| > 0 ==> ReadItems(StringifyItems(items) + ("]" + s)) == Some((items, "]" + s))
    ensures ReadValue(Stringify(JArr(items)) + s) == Some((JArr(items), s))
  {
    var body := StringifyItems(items);
    if |items| > 0 {
      ItemsStart(items);
    }
    ArrayText(body, items, s);
    ArrayString(items, s);
  }

  lemma ArrayString(items: seq<Json>, s: string)
    ensures Stringify(JArr(items)) + s == "[" + (StringifyItems(items) + ("]" + s))
  {
  }

  lemma ObjectString(members: seq<Member>, s: string)
    ensures Stringify(JObj(members)) + s == "{" + (StringifyMembers(members) + ("}" + s))
  {
  }

  lemma MembersString(members: seq<Member>, s: string)
    requires |members| > 0
    ensures var m := members[0];
      StringifyMembers(members) + s ==
        Quote(m.key) + ":" + Stringify(m.value)
        + (if |members| == 1 then s else "," + (StringifyMembers(members[1..]) + s))
  {
    var m := members[0];
    var head := Quote(m.key) + ":" + Stringify(m.value);
    if |members| > 1 {
      var tail := StringifyMembers(members[1..]);
      assert StringifyMembers(members) == head + "," + tail;
      Concat3(head, ",", tail, s);
    }
  }

  /** The object case of `ReadValue`, given that the members read back. */
  lemma ObjectRead(members: seq<Member>, s: string)
    requires |members| > 0 ==> ReadMembers(StringifyMembers(members) + ("}" + s)) == Some((members, "}" + s))
    ensures ReadValue(Stringify(JObj(members)) + s) == Some((JObj(members), s))
  {
    var body := StringifyMembers(members);
    if |members| > 0 {
      MembersStart(members);
    }
    ObjectText(body, members, s);
    ObjectString(members, s);
  }

  /** Reading back a serialised value followed by `s` gives the value and
      `s` again. */
  lemma {:induction false} ValueRoundTrip(v: Json, s: string)
    requires Stop(s)
    ensures ReadValue(Stringify(v) + s) == Some((v, s))
    decreases v, 2
  {
    match v
    case JNull => LiteralRoundTrip(v, s);
    case JBool(_) => LiteralRoundTrip(v, s);
    case JNum(n) => NumberRoundTrip(n, s);
    case JStr(x) => StrRoundTrip(x, s);
    case JArr(items) =>
      if |items| > 0 {
        ItemsRoundTrip(items, "]" + s);
      }
      ArrayRead(items, s);
    case JObj(members) =>
      if |members| > 0 {
        MembersRoundTrip(members, "}" + s);
      }
      ObjectRead(members, s);
  }

  lemma ItemsStart(items: seq<Json>)
    requires |items| > 0
    ensures |StringifyItems(items)| > 0 && StringifyItems(items)[0] != ']'
  {
    if |items| > 1 {
      assert StringifyItems(items)[0] == Stringify(items[0])[0];
    }
  }

  lemma MembersStart(members: seq<Member>)
    requires |members| > 0
    ensures |StringifyMembers(members)| > 0 && StringifyMembers(members)[0] == '"'
  {
  }

  /** One step of `ReadItems`: a value followed by a comma reads on. */
  lemma ItemsStep(v: Json, rest: seq<Json>, after: string, s: string)
    requires ReadValue(Stringify(v) + ("," + after)) == Some((v, "," + after))
    requires ReadItems(after) == Some((rest, s))
    ensures ReadItems(Stringify(v) + ("," + after)) == Some(([v] + rest, s))
  {
    assert ("," + after)[1..] == after;
  }

  lemma {:induction false} ItemsRoundTrip(items: seq<Json>, s: string)
    requires |items| > 0
    requires |s| > 0 && s[0] == ']'
    ensures ReadItems(StringifyItems(items) + s) == Some((items, s))
    decreases items, 1
  {
    if |items| == 1 {
      ValueRoundTrip(items[0], s);
      assert StringifyItems(items) == Stringify(items[0]);
      assert items == [items[0]];
    } else {
      var rest := items[1..];
      var after := StringifyItems(rest) + s;
      assert StringifyItems(items) + s == Stringify(items[0]) + ("," + after);
      ValueRoundTrip(items[0], "," + after);
      ItemsRoundTrip(rest, s);
      ItemsStep(items[0], rest, after, s);
      assert [items[0]] + rest == items;
    }
  }

  /** One member read back: its key, the colon and its value. */
  lemma MemberRoundTrip(m: Member, after: string)
    requires ReadValue(Stringify(m.value) + after) == Some((m.value, after))
    ensures ReadMember(Quote(m.key) + ":" + Stringify(m.value) + after) == Some((m, after))
  {
    var value := Stringify(m.value) + after;
    var tail := ":" + value;
    StringRoundTrip(m.key, tail);
    MemberText(m.key, Escape(m.key), m.value, value, after);
    var e := Escape(m.key);
    var sv := Stringify(m.value);
    assert Quote(m.key) + ":" + sv + after == "\"" + (e + ("\"" + tail)) by {
      Concat4(Quote(m.key), ":", sv, after);
      Concat3("\"", e, "\"", tail);
    }
  }

  lemma Concat4(a: string, b: string, c: string, d: string)
    ensures a + b + c + d == a + (b + (c + d))
  {
  }

  lemma Concat3(a: string, b: string, c: string, d: string)
    ensures (a + b + c) + d == a + (b + (c + d))
  {
  }

  lemma MemberText(key: string, escaped: string, v: Json, value: string, after: string)
    requires ReadString(escaped + ("\"" + (":" + value))) == Some((key, ":" + value))
    requires ReadValue(value) == Some((v, after))
    ensures ReadMember("\"" + (escaped + ("\"" + (":" + value)))) == Some((Member(key, v), after))
  {
    var w := "\"" + (escaped + ("\"" + (":" + value)));
    assert w[0] == '"' && w[1..] == escaped + ("\"" + (":" + value));
    assert (":" + value)[1..] == value;
  }

  /** One step of `ReadMembers`: a member followed by a comma reads on. */
  lemma MembersStep(m: Member, rest: seq<Member>, after: string, s: string)
    requires ReadMember(Quote(m.key) + ":" + Stringify(m.value) + ("," + after)) == Some((m, "," + after))
    requires ReadMembers(after) == Some((rest, s))
    ensures ReadMembers(Quote(m.key) + ":" + Stringify(m.value) + ("," + after)) == Some(([m] + rest, s))
  {
    assert ("," + after)[1..] == after;
  }

  lemma {:induction false} MembersRoundTrip(members: seq<Member>, s: string)
    requires |members| > 0
    requires |s| > 0 && s[0] == '}'
    ensures ReadMembers(StringifyMembers(members) + s) == Some((members, s))
    decreases members, 1
  {
    var m := members[0];
    if |members| == 1 {
      ValueRoundTrip(m.value, s);
      LastMemberRead(members, s);
    } else {
      var rest := members[1..];
      var after := StringifyMembers(rest) + s;
      ValueRoundTrip(m.value, "," + after);
      MembersRoundTrip(rest, s);
      NextMemberRead(members, s);
    }
  }

  lemma LastMemberRead(members: seq<Member>, s: string)
    requires |members| == 1 && |s| > 0 && s[0] == '}'
    requires ReadValue(Stringify(members[0].value) + s) == Some((members[0].value, s))
    ensures ReadMembers(StringifyMembers(members) + s) == Some((members, s))
  {
    var m := members[0];
    MemberRoundTrip(m, s);
    MembersString(members, s);
    assert members == [m];
  }

  lemma NextMemberRead(members: seq<Member>, s: string)
    requires |members| > 1
    requires var after := StringifyMembers(members[1..]) + s;
      && ReadValue(Stringify(members[0].value) + ("," + after)) == Some((members[0].value, "," + after))
      && ReadMembers(after) == Some((members[1..], s))
    ensures ReadMembers(StringifyMembers(members) + s) == Some((members, s))
  {
    var m := members[0];
    var rest := members[1..];
    var after := StringifyMembers(rest) + s;
    var x := Quote(m.key) + ":" + Stringify(m.value) + ("," + after);
    MembersString(members, s);
    assert StringifyMembers(members) + s == x;
    MemberRoundTrip(m, "," + after);
    MembersStep(m, rest, after, s);
    assert ReadMembers(x) == Some(([m] + rest, s));
    assert [m] + rest == members;
  }

  /** `JSON.stringify` is injective on the value model. */
  lemma StringifyInjective(a: Json, b: Json)
    ensures Stringify(a) == Stringify(b) <==> a == b
  {
    ValueRoundTrip(a, "");
    ValueRoundTrip(b, "");
    assert Stringify(a) + "" == Stringify(a);
    assert Stringify(b) + "" == Stringify(b);
  }

  /** Comparing two property reads by their serialisation is the same as
      comparing the values themselves, with `undefined` equal only to
      itself. */
  lemma SameSerializationIsEquality(a: Option<Json>, b: Option<Json>)
    ensures SameSerialization(a, b) <==> a == b
  {
    if a.Some? && b.Some? {
      StringifyInjective(a.value, b.value);
    }
  }
}
