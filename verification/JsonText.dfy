/** JSON text: what a serializer writes for a value, and how many UTF-8 bytes that takes. */
module JsonText {
  import opened Basics
  import Utf8
  import opened WireKeys
  import Decimal

  // ---- strings ----

  /** Bytes the serializer emits for one character of a string. */
  function EscapedLen(c: char): (n: nat)
    ensures 1 <= n <= 6
  {
    if c == '"' || c == '\\' || c == '\U{8}' || c == '\U{c}' || c == '\n' || c == '\r' || c == '\t' then 2
    else if c as int < 0x20 then 6
    else Utf8.CharLen(c)
  }

  function TextEscapedLen(text: string): nat {
    if text == [] then 0 else TextEscapedLen(text[..|text| - 1]) + EscapedLen(text[|text| - 1])
  }

  function HexDigit(d: nat): (c: char)
    requires d < 16
    ensures c as int < 0x80
  {
    if d < 10 then (48 + d) as char else (87 + d) as char
  }

  /** How section 7 of RFC 8259 has a character written inside a string. */
  function Escape(c: char): string {
    if c == '"' then "\\\""
    else if c == '\\' then "\\\\"
    else if c == '\U{8}' then "\\b"
    else if c == '\U{c}' then "\\f"
    else if c == '\n' then "\\n"
    else if c == '\r' then "\\r"
    else if c == '\t' then "\\t"
    else if c as int < 0x20 then ['\\', 'u', '0', '0', HexDigit(c as int / 16), HexDigit(c as int % 16)]
    else [c]
  }

  function EscapeText(text: string): string {
    if text == [] then [] else EscapeText(text[..|text| - 1]) + Escape(text[|text| - 1])
  }

  /** A string of characters below U+0080 takes one byte a character. */
  lemma {:induction false} AsciiLen(s: string)
    requires forall i :: 0 <= i < |s| ==> s[i] as int < 0x80
    ensures Utf8.Len(s) == |s|
  {
    if s != [] { AsciiLen(s[..|s| - 1]); }
  }

  lemma EscapeLen(c: char)
    ensures Utf8.Len(Escape(c)) == EscapedLen(c)
  {
    if |Escape(c)| > 1 {
      AsciiLen(Escape(c));
    } else {
      assert Escape(c)[..0] == [];
    }
  }

  /** The summed per-character cost is the number of bytes the escaper writes. */
  lemma {:induction false} EscapedTextLen(text: string)
    ensures Utf8.Len(EscapeText(text)) == TextEscapedLen(text)
  {
    if text != [] {
      EscapedTextLen(text[..|text| - 1]);
      EscapeLen(text[|text| - 1]);
      Utf8.LenConcat(EscapeText(text[..|text| - 1]), Escape(text[|text| - 1]));
    }
  }

  lemma {:induction false} PlainLen(s: string)
    requires Plain(s)
    ensures TextEscapedLen(s) == |s|
  {
    if s != [] { PlainLen(s[..|s| - 1]); }
  }

  // ---- reading a string back ----

  function HexValue(c: char): Option<nat> {
    if '0' <= c <= '9' then Some(c as int - 48)
    else if 'a' <= c <= 'f' then Some(c as int - 87)
    else if 'A' <= c <= 'F' then Some(c as int - 55)
    else None
  }

  /** The character written first in a string's body, and the length it is written with. */
  function ReadChar(body: string): Option<(char, nat)> {
    if body == [] then None
    else if body[0] == '"' || body[0] as int < 0x20 then None
    else if body[0] != '\\' then Some((body[0], 1))
    else if |body| < 2 then None
    else match body[1]
      case '"' => Some(('"', 2))
      case '\\' => Some(('\\', 2))
      case '/' => Some(('/', 2))
      case 'b' => Some(('\U{8}', 2))
      case 'f' => Some(('\U{c}', 2))
      case 'n' => Some(('\n', 2))
      case 'r' => Some(('\r', 2))
      case 't' => Some(('\t', 2))
      case 'u' =>
        if |body| < 6 then None
        else
          var a, b, c, d := HexValue(body[2]), HexValue(body[3]), HexValue(body[4]), HexValue(body[5]);
          if a.None? || b.None? || c.None? || d.None? then None
          else
            var v := 4096 * a.value + 256 * b.value + 16 * c.value + d.value;
            if v < 0xD800 || 0xE000 <= v < 0x1_0000 then Some((v as char, 6)) else None
      case _ => None
  }

  /** A reader for a string's body, surrogate pairs aside. */
  function Unescape(body: string): Option<string>
    decreases |body|
  {
    if body == [] then Some([])
    else
      match ReadChar(body)
      case None => None
      case Some((c, n)) =>
        if n == 0 || n > |body| then None else
        match Unescape(body[n..])
        case None => None
        case Some(rest) => Some([c] + rest)
  }

  lemma ReadEscaped(c: char, rest: string)
    ensures ReadChar(Escape(c) + rest) == Some((c, |Escape(c)|))
  {
  }

  /** No other way to write a character takes fewer bytes. */
  lemma EscapeIsShortest(c: char, body: string)
    requires ReadChar(body) == Some((c, |body|))
    ensures EscapedLen(c) <= Utf8.Len(body)
  {
    if |body| == 1 { assert body[..0] == []; }
  }

  lemma {:induction false} EscapeConcat(a: string, b: string)
    ensures EscapeText(a + b) == EscapeText(a) + EscapeText(b)
  {
    if b == [] {
      assert a + b == a;
    } else {
      var front, last := b[..|b| - 1], b[|b| - 1];
      EscapeConcat(a, front);
      assert (a + b)[..|a + b| - 1] == a + front && (a + b)[|a + b| - 1] == last;
      Associative(EscapeText(a), EscapeText(front), Escape(last));
    }
  }

  lemma Associative(a: string, b: string, c: string)
    ensures (a + b) + c == a + (b + c)
  {
  }

  /** Reading undoes escaping, for every text. */
  lemma {:induction false} UnescapeEscaped(text: string)
    ensures Unescape(EscapeText(text)) == Some(text)
  {
    if text != [] {
      var c, rest := text[0], text[1..];
      assert text == [c] + rest;
      EscapeConcat([c], rest);
      assert [c][..0] == [] && EscapeText([c]) == Escape(c);
      ReadEscaped(c, EscapeText(rest));
      assert (Escape(c) + EscapeText(rest))[|Escape(c)|..] == EscapeText(rest);
      UnescapeEscaped(rest);
    }
  }

  // ---- values ----

  datatype Json = Num(value: int) | Bool(flag: bool) | Str(text: string) | Arr(items: seq<Json>) | Obj(fields: Object)

  /** An object under construction, in the order its fields are written. */
  datatype Object = Empty | Put(rest: Object, key: Key, value: Json) {
    function With(name: Key, v: Json): Object { Put(this, name, v) }
    function WithOpt(name: Key, v: Option<Json>): Object { if v.None? then this else Put(this, name, v.value) }
  }

  function Quoted(s: string): string { "\"" + EscapeText(s) + "\"" }

  function Write(j: Json): string
    decreases j
  {
    match j
    case Num(v) => if v < 0 then "-" + Decimal.Print(-v) else Decimal.Print(v)
    case Bool(b) => if b then "true" else "false"
    case Str(s) => Quoted(s)
    case Arr(items) => "[" + WriteItems(items) + "]"
    case Obj(fields) => "{" + WriteFields(fields) + "}"
  }

  function WriteItems(items: seq<Json>): string
    decreases items
  {
    if items == [] then ""
    else if |items| == 1 then Write(items[0])
    else WriteItems(items[..|items| - 1]) + ("," + Write(items[|items| - 1]))
  }

  function WriteFields(o: Object): string
    decreases o
  {
    match o
    case Empty => ""
    case Put(rest, key, v) =>
      (if rest.Empty? then "" else WriteFields(rest) + ",") + (Quoted(Spelling(key)) + (":" + Write(v)))
  }

  // ---- sizes ----

  function Size(j: Json): nat
    decreases j
  {
    match j
    case Num(v) => if v < 0 then 1 + |Decimal.Print(-v)| else |Decimal.Print(v)|
    case Bool(b) => if b then 4 else 5
    case Str(s) => TextEscapedLen(s) + 2
    case Arr(items) => 2 + ItemsSize(items)
    case Obj(fields) => 2 + FieldsSize(fields)
  }

  function ItemsSize(items: seq<Json>): nat
    decreases items
  {
    if items == [] then 0
    else if |items| == 1 then Size(items[0])
    else ItemsSize(items[..|items| - 1]) + 1 + Size(items[|items| - 1])
  }

  function FieldsSize(o: Object): nat
    decreases o
  {
    match o
    case Empty => 0
    case Put(rest, key, v) => (if rest.Empty? then 0 else FieldsSize(rest) + 1) + KeyLen(key) + 3 + Size(v)
  }

  lemma QuotedLen(s: string)
    ensures Utf8.Len(Quoted(s)) == TextEscapedLen(s) + 2
  {
    EscapedTextLen(s);
    AsciiLen("\"");
    Utf8.LenConcat("\"", EscapeText(s));
    Utf8.LenConcat("\"" + EscapeText(s), "\"");
  }

  lemma BracketLen(open: string, body: string, close: string)
    requires |open| == |close| == 1 && open[0] as int < 0x80 && close[0] as int < 0x80
    ensures Utf8.Len(open + body + close) == Utf8.Len(body) + 2
  {
    AsciiLen(open);
    AsciiLen(close);
    Utf8.LenConcat(open, body);
    Utf8.LenConcat(open + body, close);
  }

  lemma ScalarLen(j: Json)
    requires j.Num? || j.Bool?
    ensures Utf8.Len(Write(j)) == Size(j)
  {
    AsciiLen(Write(j));
  }

  /** The size is exactly the UTF-8 length of the text written. */
  lemma {:induction false} WriteLen(j: Json)
    ensures Utf8.Len(Write(j)) == Size(j)
    decreases j
  {
    hide Quoted, Utf8.Len, WriteItems, WriteFields, ItemsSize, FieldsSize;
    match j
    case Num(v) => ScalarLen(j);
    case Bool(b) => ScalarLen(j);
    case Str(s) => QuotedLen(s);
    case Arr(items) =>
      WriteItemsLen(items);
      BracketLen("[", WriteItems(items), "]");
    case Obj(fields) =>
      WriteFieldsLen(fields);
      BracketLen("{", WriteFields(fields), "}");
  }

  lemma {:induction false} WriteItemsLen(items: seq<Json>)
    ensures Utf8.Len(WriteItems(items)) == ItemsSize(items)
    decreases items
  {
    if items == [] {
    } else if |items| == 1 {
      WriteLen(items[0]);
    } else {
      var front, last := items[..|items| - 1], items[|items| - 1];
      WriteItemsLen(front);
      WriteLen(last);
      AsciiLen(",");
      Utf8.LenConcat(",", Write(last));
      Utf8.LenConcat(WriteItems(front), "," + Write(last));
    }
  }

  lemma {:induction false} WriteFieldsLen(o: Object)
    ensures Utf8.Len(WriteFields(o)) == FieldsSize(o)
    decreases o
  {
    match o
    case Empty =>
    case Put(rest, key, v) =>
      WriteFieldsLen(rest);
      WriteLen(v);
      KeyTextLen(key);
      FieldTextLen(WriteFields(rest), Quoted(Spelling(key)), Write(v));
  }

  lemma KeyTextLen(key: Key)
    ensures Utf8.Len(Quoted(Spelling(key))) == KeyLen(key) + 2
  {
    KeySpelled(key);
    PlainLen(Spelling(key));
    QuotedLen(Spelling(key));
  }

  lemma FieldTextLen(before: string, key: string, v: string)
    ensures Utf8.Len("" + (key + (":" + v))) == Utf8.Len(key) + 1 + Utf8.Len(v)
    ensures Utf8.Len(before + "," + (key + (":" + v))) == Utf8.Len(before) + Utf8.Len(key) + 2 + Utf8.Len(v)
  {
    AsciiLen(",");
    AsciiLen(":");
    Utf8.LenConcat(":", v);
    Utf8.LenConcat(key, ":" + v);
    assert "" + (key + (":" + v)) == key + (":" + v);
    Utf8.LenConcat(before, ",");
    Utf8.LenConcat(before + ",", key + (":" + v));
  }
}
