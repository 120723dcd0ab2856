/** A reader for the JSON text the serializer writes: reading undoes writing, for every value. */
module JsonReader {
  import opened Basics
  import opened WireKeys
  import opened JsonText
  import Decimal

  // ---- numbers ----

  predicate IsDigit(c: char) { '0' <= c <= '9' }

  function DigitCount(s: string): (n: nat)
    ensures n <= |s|
    ensures forall i :: 0 <= i < n ==> IsDigit(s[i])
  {
    if s == "" || !IsDigit(s[0]) then 0 else 1 + DigitCount(s[1..])
  }

  function Value(digits: string): nat
    requires forall i :: 0 <= i < |digits| ==> IsDigit(digits[i])
  {
    if digits == "" then 0
    else
      var last := digits[|digits| - 1];
      assert IsDigit(last);
      10 * Value(digits[..|digits| - 1]) + (last as int - 48)
  }

  function ReadNatural(s: string): (r: Option<(nat, string)>)
    ensures r.Some? ==> |r.value.1| < |s|
  {
    var n := DigitCount(s);
    if n == 0 then None else Some((Value(s[..n]), s[n..]))
  }

  function ReadNumber(s: string): (r: Option<(Json, string)>)
    ensures r.Some? ==> |r.value.1| < |s|
  {
    if s != "" && s[0] == '-' then
      var r := ReadNatural(s[1..]);
      if r.None? then None else Some((Num(0 - r.value.0), r.value.1))
    else
      var r := ReadNatural(s);
      if r.None? then None else Some((Num(r.value.0), r.value.1))
  }

  /** What may follow a value: the end, or punctuation that closes or separates. */
  predicate Stops(rest: string) {
    rest == "" || rest[0] in {',', ']', '}'}
  }

  lemma {:induction false} CountsDigits(digits: string, rest: string)
    requires (forall i :: 0 <= i < |digits| ==> IsDigit(digits[i])) && (rest == "" || !IsDigit(rest[0]))
    ensures DigitCount(digits + rest) == |digits|
  {
    if digits != "" {
      assert (digits + rest)[1..] == digits[1..] + rest;
      CountsDigits(digits[1..], rest);
    } else {
      assert digits + rest == rest;
    }
  }

  lemma {:induction false} ValueOfPrint(n: nat)
    ensures forall i :: 0 <= i < |Decimal.Print(n)| ==> IsDigit(Decimal.Print(n)[i])
    ensures Value(Decimal.Print(n)) == n && Decimal.Print(n) != ""
  {
    var s := Decimal.Print(n);
    if n < 10 {
      assert s[..0] == "";
    } else {
      ValueOfPrint(n / 10);
      assert s[..|s| - 1] == Decimal.Print(n / 10);
    }
  }

  lemma NaturalReadsBack(n: nat, rest: string)
    requires Stops(rest)
    ensures ReadNatural(Decimal.Print(n) + rest) == Some((n, rest))
  {
    var digits := Decimal.Print(n);
    ValueOfPrint(n);
    CountsDigits(digits, rest);
    assert (digits + rest)[..|digits|] == digits && (digits + rest)[|digits|..] == rest;
  }

  lemma NumberReadsBack(v: int, rest: string)
    requires Stops(rest)
    ensures ReadNumber(Write(Num(v)) + rest) == Some((Num(v), rest))
    ensures var c := (Write(Num(v)) + rest)[0]; c == '-' || IsDigit(c)
  {
    hide ReadNatural, Value;
    var n := if v < 0 then -v else v;
    ValueOfPrint(n);
    NaturalReadsBack(n, rest);
    if v < 0 {
      assert ("-" + Decimal.Print(n) + rest)[1..] == Decimal.Print(n) + rest;
    }
  }

  // ---- strings ----

  /** The rest of a string, up to its closing quote. */
  function ReadBody(s: string): (r: Option<(string, string)>)
    ensures r.Some? ==> |r.value.1| < |s|
    decreases |s|
  {
    if s == "" then None
    else if s[0] == '"' then Some(("", s[1..]))
    else
      match ReadChar(s)
      case None => None
      case Some((c, n)) =>
        if n == 0 || n > |s| then None
        else
          match ReadBody(s[n..])
          case None => None
          case Some((text, rest)) => Some(([c] + text, rest))
  }

  lemma EscapeStartsPlain(c: char, rest: string)
    ensures |Escape(c)| >= 1 && (Escape(c) + rest)[0] != '"'
  {
  }

  lemma {:induction false} BodyReadsBack(text: string, rest: string)
    ensures ReadBody(EscapeText(text) + ("\"" + rest)) == Some((text, rest))
  {
    var tail := "\"" + rest;
    if text == "" {
      assert EscapeText(text) + tail == tail && tail[1..] == rest;
    } else {
      hide Escape, ReadChar;
      var c, more := text[0], text[1..];
      assert text == [c] + more;
      EscapeConcat([c], more);
      assert [c][..0] == [] && EscapeText([c]) == Escape(c);
      var after := EscapeText(more) + tail;
      Associative(Escape(c), EscapeText(more), tail);
      assert EscapeText(text) + tail == Escape(c) + after;
      ReadEscaped(c, after);
      EscapeStartsPlain(c, after);
      assert (Escape(c) + after)[|Escape(c)|..] == after;
      BodyReadsBack(more, rest);
    }
  }

  lemma QuotedReadsBack(text: string, rest: string)
    ensures (Quoted(text) + rest)[0] == '"'
    ensures ReadBody((Quoted(text) + rest)[1..]) == Some((text, rest))
  {
    hide ReadBody, EscapeText;
    BodyReadsBack(text, rest);
    assert Quoted(text) + rest == "\"" + (EscapeText(text) + ("\"" + rest));
  }

  // ---- keys ----

  function KeyOf(spelling: string): Option<Key> {
    if exists k: Key :: Spelling(k) == spelling then
      SpellingsDiffer();
      var k: Key :| Spelling(k) == spelling;
      Some(k)
    else None
  }

  lemma SpellingsDiffer()
    ensures forall a: Key, b: Key :: Spelling(a) == Spelling(b) ==> a == b
  {
  }

  // ---- values ----

  function ReadValue(s: string): (r: Option<(Json, string)>)
    ensures r.Some? ==> |r.value.1| < |s|
    decreases |s|, 1
  {
    if s == "" then None
    else if s[0] == '"' then
      (match ReadBody(s[1..])
       case None => None
       case Some((text, rest)) => Some((Str(text), rest)))
    else if "true" <= s then Some((Bool(true), s[4..]))
    else if "false" <= s then Some((Bool(false), s[5..]))
    else if "[]" <= s then Some((Arr([]), s[2..]))
    else if s[0] == '[' then ReadItems(s[1..], [])
    else if "{}" <= s then Some((Obj(Empty), s[2..]))
    else if s[0] == '{' then ReadFields(s[1..], Empty)
    else ReadNumber(s)
  }

  /** The items of an array, after those read already, up to its closing bracket. */
  function ReadItems(s: string, items: seq<Json>): (r: Option<(Json, string)>)
    ensures r.Some? ==> |r.value.1| < |s|
    decreases |s|, 2
  {
    match ReadValue(s)
    case None => None
    case Some((item, rest)) => MoreItems(rest, items + [item])
  }

  function MoreItems(s: string, items: seq<Json>): (r: Option<(Json, string)>)
    ensures r.Some? ==> |r.value.1| < |s|
    decreases |s|, 0
  {
    if s == "" then None
    else if s[0] == ']' then Some((Arr(items), s[1..]))
    else if s[0] == ',' then ReadItems(s[1..], items)
    else None
  }

  /** One key with its colon. */
  function ReadKey(s: string): (r: Option<(Key, string)>)
    ensures r.Some? ==> |r.value.1| < |s|
  {
    if s == "" || s[0] != '"' then None
    else
      match ReadBody(s[1..])
      case None => None
      case Some((text, rest)) =>
        if rest == "" || rest[0] != ':' then None
        else
          match KeyOf(text)
          case None => None
          case Some(key) => Some((key, rest[1..]))
  }

  /** The fields of an object, after those read already, up to its closing brace. */
  function ReadFields(s: string, o: Object): (r: Option<(Json, string)>)
    ensures r.Some? ==> |r.value.1| < |s|
    decreases |s|, 2
  {
    match ReadKey(s)
    case None => None
    case Some((key, body)) =>
      match ReadValue(body)
      case None => None
      case Some((v, rest)) => MoreFields(rest, Put(o, key, v))
  }

  function MoreFields(s: string, o: Object): (r: Option<(Json, string)>)
    ensures r.Some? ==> |r.value.1| < |s|
    decreases |s|, 0
  {
    if s == "" then None
    else if s[0] == '}' then Some((Obj(o), s[1..]))
    else if s[0] == ',' then ReadFields(s[1..], o)
    else None
  }

  // ---- reading undoes writing ----

  lemma KeyReadsBack(key: Key, rest: string)
    ensures ReadKey(Quoted(Spelling(key)) + (":" + rest)) == Some((key, rest))
  {
    hide ReadBody, Quoted;
    QuotedReadsBack(Spelling(key), ":" + rest);
    SpellingsDiffer();
    assert (":" + rest)[1..] == rest;
  }

  function Joined(first: Object, second: Object): Object {
    match second
    case Empty => first
    case Put(rest, key, v) => Put(Joined(first, rest), key, v)
  }

  lemma {:induction false} JoinedToEmpty(o: Object)
    ensures Joined(Empty, o) == o
  {
    match o
    case Empty =>
    case Put(rest, _, _) => JoinedToEmpty(rest);
  }

  lemma ScalarReadsBack(j: Json, rest: string)
    requires (j.Num? || j.Bool? || j.Str?) && Stops(rest)
    ensures ReadValue(Write(j) + rest) == Some((j, rest))
  {
    hide ReadBody, ReadNumber;
    match j
    case Num(v) => NumberReadsBack(v, rest);
    case Bool(b) => if b { assert ("true" + rest)[4..] == rest; } else { assert ("false" + rest)[5..] == rest; }
    case Str(text) => QuotedReadsBack(text, rest);
  }

  lemma WrittenBegins(j: Json, rest: string)
    ensures Write(j) != "" && (Write(j) + rest)[0] != ']' && (Write(j) + rest)[0] != '}'
  {
    match j
    case Num(v) => ValueOfPrint(if v < 0 then -v else v);
    case Bool(_) =>
    case Str(_) =>
    case Arr(_) =>
    case Obj(_) =>
  }

  lemma {:induction false} ReadWritten(j: Json, rest: string)
    requires Stops(rest)
    ensures ReadValue(Write(j) + rest) == Some((j, rest))
    decreases j, 1
  {
    hide ReadItems, ReadFields, MoreItems, MoreFields, WriteItems, WriteFields, ReadNumber, ReadBody;
    match j
    case Num(_) => ScalarReadsBack(j, rest);
    case Bool(_) => ScalarReadsBack(j, rest);
    case Str(_) => ScalarReadsBack(j, rest);
    case Arr(items) => ArrayReadsBack(items, rest);
    case Obj(fields) => ObjectReadsBack(fields, rest);
  }

  lemma ReadsItems(items: seq<Json>, body: string, rest: string)
    requires body != "" && body[0] != ']' && ReadItems(body, []) == Some((Arr(items), rest))
    ensures ReadValue("[" + body) == Some((Arr(items), rest))
  {
    hide ReadFields, ReadItems, ReadNumber, ReadBody;
    assert ("[" + body)[1..] == body;
  }

  lemma ItemsEnd(rest: string, items: seq<Json>)
    ensures MoreItems("]" + rest, items) == Some((Arr(items), rest))
  {
    assert ("]" + rest)[1..] == rest;
  }

  lemma ItemsGoOn(more: string, items: seq<Json>)
    ensures MoreItems("," + more, items) == ReadItems(more, items)
  {
    hide ReadItems;
    assert ("," + more)[1..] == more;
  }

  lemma EmptyReadsBack(rest: string)
    ensures ReadValue("[]" + rest) == Some((Arr([]), rest))
    ensures ReadValue("{}" + rest) == Some((Obj(Empty), rest))
  {
    hide ReadFields, ReadItems, ReadNumber, ReadBody;
    assert ("[]" + rest)[2..] == rest && ("{}" + rest)[2..] == rest;
  }

  lemma {:induction false} ArrayReadsBack(items: seq<Json>, rest: string)
    requires Stops(rest)
    ensures ReadValue(Write(Arr(items)) + rest) == Some((Arr(items), rest))
    decreases items, 1
  {
    var s, tail := Write(Arr(items)) + rest, "]" + rest;
    hide ReadValue, ReadItems, MoreItems;
    if items == [] {
      EmptyReadsBack(rest);
      assert s == "[]" + rest;
    } else {
      hide WriteItems;
      assert s == "[" + (WriteItems(items) + tail);
      ItemsReadBack(items, tail, []);
      ItemsBegin(items, tail);
      ItemsEnd(rest, items);
      assert [] + items == items;
      ReadsItems(items, WriteItems(items) + tail, rest);
    }
  }

  lemma {:induction false} ItemsBegin(items: seq<Json>, tail: string)
    requires items != []
    ensures WriteItems(items) != "" && (WriteItems(items) + tail)[0] != ']'
  {
    if |items| == 1 {
      WrittenBegins(items[0], tail);
    } else {
      var front := items[..|items| - 1];
      ItemsBegin(front, tail);
    }
  }

  lemma {:induction false} ItemsReadBack(items: seq<Json>, tail: string, before: seq<Json>)
    requires items != [] && tail != "" && tail[0] in {',', ']'}
    ensures ReadItems(WriteItems(items) + tail, before) == MoreItems(tail, before + items)
    decreases items, 0
  {
    hide ReadValue, ReadItems, MoreItems, Write;
    var front, last := items[..|items| - 1], items[|items| - 1];
    ReadWritten(last, tail);
    if |items| == 1 {
      assert items == [last];
      ItemReadsBack(last, tail, before);
    } else {
      var item := Write(last) + tail;
      ItemsReadBack(front, "," + item, before);
      assert WriteItems(items) + tail == WriteItems(front) + ("," + item);
      ItemsGoOn(item, before + front);
      ItemReadsBack(last, tail, before + front);
      assert (before + front) + [last] == before + items;
    }
  }

  lemma ItemReadsBack(item: Json, tail: string, before: seq<Json>)
    requires ReadValue(Write(item) + tail) == Some((item, tail))
    ensures ReadItems(Write(item) + tail, before) == MoreItems(tail, before + [item])
  {
    hide ReadValue, MoreItems, Write;
  }

  lemma ReadsFields(o: Object, body: string, rest: string)
    requires body != "" && body[0] != '}' && ReadFields(body, Empty) == Some((Obj(o), rest))
    ensures ReadValue("{" + body) == Some((Obj(o), rest))
  {
    hide ReadFields, ReadItems, ReadNumber, ReadBody;
    assert ("{" + body)[1..] == body;
  }

  lemma FieldsEnd(rest: string, o: Object)
    ensures MoreFields("}" + rest, o) == Some((Obj(o), rest))
  {
    assert ("}" + rest)[1..] == rest;
  }

  lemma FieldsGoOn(more: string, o: Object)
    ensures MoreFields("," + more, o) == ReadFields(more, o)
  {
    hide ReadFields;
    assert ("," + more)[1..] == more;
  }

  lemma {:induction false} ObjectReadsBack(o: Object, rest: string)
    requires Stops(rest)
    ensures ReadValue(Write(Obj(o)) + rest) == Some((Obj(o), rest))
    decreases o, 1
  {
    var s, tail := Write(Obj(o)) + rest, "}" + rest;
    hide ReadValue, ReadFields, MoreFields;
    if o == Empty {
      EmptyReadsBack(rest);
      assert s == "{}" + rest;
    } else {
      hide WriteFields;
      assert s == "{" + (WriteFields(o) + tail);
      FieldsReadBack(o, tail, Empty);
      FieldsBegin(o, tail);
      JoinedToEmpty(o);
      FieldsEnd(rest, o);
      ReadsFields(o, WriteFields(o) + tail, rest);
    }
  }

  lemma {:induction false} FieldsBegin(o: Object, tail: string)
    requires o != Empty
    ensures WriteFields(o) != "" && (WriteFields(o) + tail)[0] != '}'
  {
    if o.rest != Empty { FieldsBegin(o.rest, tail); }
  }

  lemma FieldReadsBack(key: Key, v: Json, tail: string, before: Object)
    requires ReadValue(Write(v) + tail) == Some((v, tail))
    ensures ReadFields(Quoted(Spelling(key)) + (":" + (Write(v) + tail)), before) == MoreFields(tail, Put(before, key, v))
  {
    hide ReadValue, MoreFields, Write, Spelling, Quoted, ReadKey;
    KeyReadsBack(key, Write(v) + tail);
  }

  lemma {:induction false} FieldsReadBack(o: Object, tail: string, before: Object)
    requires o != Empty && tail != "" && tail[0] in {',', '}'}
    ensures ReadFields(WriteFields(o) + tail, before) == MoreFields(tail, Joined(before, o))
    decreases o, 0
  {
    hide ReadValue, ReadFields, MoreFields, Write, Spelling, Quoted;
    var key, v := Quoted(Spelling(o.key)), Write(o.value);
    var field := key + (":" + (v + tail));
    ReadWritten(o.value, tail);
    if o.rest == Empty {
      FieldReadsBack(o.key, o.value, tail, before);
      assert WriteFields(o) + tail == field;
    } else {
      var more := "," + field;
      FieldsReadBack(o.rest, more, before);
      assert WriteFields(o) + tail == WriteFields(o.rest) + more;
      FieldsGoOn(field, Joined(before, o.rest));
      FieldReadsBack(o.key, o.value, tail, Joined(before, o.rest));
    }
  }
}
