/** The printed form of a value, in characters: what a reader of the output relies on. */
module Format {
  import opened Bytes
  import opened Json
  import opened Printer
  import opened Decimals

  // ---- strings ----

  // Five characters have a short escape, the other control characters a code in lower-case
  // hexadecimal digits, and everything else stands for itself.
  lemma EscapesAre(c: byte)
    ensures var e := EscapeByte(c);
            if c == 8 then e == Ascii("\\b")
            else if c == 9 then e == Ascii("\\t")
            else if c == 10 then e == Ascii("\\n")
            else if c == 13 then e == Ascii("\\r")
            else if c == 0x22 then e == Ascii("\\\"")
            else if c < 0x20 then
              var hex := Ascii("0123456789abcdef");
              e == Ascii("\\u00") + [hex[c / 16], hex[c % 16]]
            else e == [c]
  {
    HexChars(c as int / 16);
    HexChars(c as int % 16);
    assert Ascii("\\b") == [0x5C, 0x62] && Ascii("\\t") == [0x5C, 0x74] && Ascii("\\n") == [0x5C, 0x6E];
    assert Ascii("\\r") == [0x5C, 0x72] && Ascii("\\\"") == [0x5C, 0x22] && Ascii("\\u00") == [0x5C, 0x75, 0x30, 0x30];
  }

  // ---- values ----

  lemma ScalarsAre(v: Value, lf: DoubleFormat)
    ensures v.Null? ==> Print(v, lf) == Ascii("null")
    ensures v.Bool? ==> Print(v, lf) == if v.b then Ascii("true") else Ascii("false")
    ensures v.Int? ==>
              var s := Print(v, lf);
              if v.i < 0 then s != [] && s[0] == 0x2D && IsNumeral(s[1..], -(v.i as int)) else IsNumeral(s, v.i)
    ensures v.Double? ==> Print(v, lf) == lf(v.literal)
    ensures v.String? ==> Print(v, lf) == Ascii("\"") + Escape(v.s) + Ascii("\"")
  {
    Characters();
    hide IsNumeral, PrintInt, Escape;
    if v.Int? {
      PrintedDigits(v.i);
    }
    assert Ascii("\"") == [DQUOTE];
  }

  function Joined(parts: seq<bytes>, separator: bytes): bytes {
    if parts == [] then []
    else if |parts| == 1 then parts[0]
    else parts[0] + separator + Joined(parts[1..], separator)
  }

  function Texts(elems: seq<Value>, lf: DoubleFormat): (r: seq<bytes>)
    ensures |r| == |elems| && forall i :: 0 <= i < |r| ==> r[i] == Print(elems[i], lf)
  {
    seq(|elems|, i requires 0 <= i < |elems| => Print(elems[i], lf))
  }

  function FieldText(f: (bytes, Value), lf: DoubleFormat): bytes {
    Ascii("\"") + Escape(f.0) + Ascii("\": ") + Print(f.1, lf)
  }

  function FieldTexts(fields: seq<(bytes, Value)>, lf: DoubleFormat): (r: seq<bytes>)
    ensures |r| == |fields| && forall i :: 0 <= i < |r| ==> r[i] == FieldText(fields[i], lf)
  {
    seq(|fields|, i requires 0 <= i < |fields| => FieldText(fields[i], lf))
  }

  lemma {:induction false} ElemsAreJoined(elems: seq<Value>, first: bool, lf: DoubleFormat)
    requires elems != []
    ensures PrintElems(elems, first, lf)
         == (if first then [SPACE] else [COMMA, SPACE]) + Joined(Texts(elems, lf), [COMMA, SPACE]) + [SPACE, RBRACKET]
    decreases |elems|
  {
    hide Print, Texts;
    if |elems| > 1 {
      ElemsAreJoined(elems[1..], false, lf);
      assert Texts(elems, lf)[1..] == Texts(elems[1..], lf);
    }
  }

  // An array is printed as [ a, b, c ], the empty one as [ ].
  lemma ArraysAre(elems: seq<Value>, lf: DoubleFormat)
    ensures Print(Array(elems), lf)
         == if elems == [] then Ascii("[ ]")
            else Ascii("[ ") + Joined(Texts(elems, lf), Ascii(", ")) + Ascii(" ]")
  {
    hide Texts, Joined;
    assert Ascii("[ ]") == [LBRACKET, SPACE, RBRACKET] && Ascii("[ ") == [LBRACKET, SPACE];
    assert Ascii(", ") == [COMMA, SPACE] && Ascii(" ]") == [SPACE, RBRACKET];
    if elems != [] {
      ElemsAreJoined(elems, true, lf);
      hide PrintElems;
    }
  }

  lemma FieldAndSeparator(f: (bytes, Value), first: bool, lf: DoubleFormat)
    ensures PrintName(f.0, first) + Print(f.1, lf) == (if first then [SPACE] else [COMMA, SPACE]) + FieldText(f, lf)
  {
    hide Print, Escape;
    assert Ascii("\"") == [DQUOTE] && Ascii("\": ") == [DQUOTE, COLON, SPACE];
  }

  lemma {:induction false} FieldsAreJoined(fields: seq<(bytes, Value)>, first: bool, lf: DoubleFormat)
    requires fields != []
    ensures PrintFields(fields, first, lf)
         == (if first then [SPACE] else [COMMA, SPACE]) + Joined(FieldTexts(fields, lf), [COMMA, SPACE])
            + [SPACE, RBRACE]
    decreases |fields|
  {
    hide Print, FieldTexts, FieldText, PrintName;
    var f, rest := fields[0], fields[1..];
    assert f.1 < f;
    FieldAndSeparator(f, first, lf);
    assert PrintFields(fields, first, lf) == PrintName(f.0, first) + Print(f.1, lf) + PrintFields(rest, false, lf);
    if rest != [] {
      FieldsAreJoined(rest, false, lf);
      hide PrintFields;
      assert FieldTexts(fields, lf)[1..] == FieldTexts(rest, lf);
      Glue(if first then [SPACE] else [COMMA, SPACE], FieldText(f, lf), [COMMA, SPACE],
           Joined(FieldTexts(rest, lf), [COMMA, SPACE]), [SPACE, RBRACE]);
    }
  }

  lemma Glue(a: bytes, b: bytes, c: bytes, d: bytes, e: bytes)
    ensures a + b + (c + d + e) == a + (b + c + d) + e
  {
  }

  // An object is printed as { "a": 1, "b": 2 }, the empty one as { }.
  lemma ObjectsAre(fields: seq<(bytes, Value)>, lf: DoubleFormat)
    ensures Print(Object(fields), lf)
         == if fields == [] then Ascii("{ }")
            else Ascii("{ ") + Joined(FieldTexts(fields, lf), Ascii(", ")) + Ascii(" }")
  {
    hide FieldTexts, Joined;
    assert Ascii("{ }") == [LBRACE, SPACE, RBRACE] && Ascii("{ ") == [LBRACE, SPACE];
    assert Ascii(", ") == [COMMA, SPACE] && Ascii(" }") == [SPACE, RBRACE];
    if fields != [] {
      FieldsAreJoined(fields, true, lf);
      hide PrintFields;
    }
  }
}
