/** Printer and parser undo each other.

    What the printer writes for a value is a JSON text of RFC 8259 that means the
    value, so the parser reads the value back from it. */
module RoundTrip {
  import opened Bytes
  import opened OrderedMap
  import opened Json
  import opened Reader
  import opened Printer
  import opened Rfc8259
  import opened Tokener

  predicate PlainText(s: bytes) {
    NUL !in s && BACKSLASH !in s
  }

  // No double, no backslash in a string or key, no key twice in an object
  ghost predicate Faithful(v: Value) {
    match v
    case Double(_) => false
    case String(s) => PlainText(s)
    case Array(elems) => forall e :: e in elems ==> Faithful(e)
    case Object(fields) => Unique(fields) && forall f :: f in fields ==> PlainText(f.0) && Faithful(f.1)
    case _ => true
  }

  // ---- integers ----

  lemma {:induction false} DigitsAreDecimal(n: nat)
    ensures Digits(n) != [] && forall i :: 0 <= i < |Digits(n)| ==> IsDigit(Digits(n)[i])
    ensures Decimal(Digits(n)) == n
    ensures n > 0 ==> Digits(n)[0] != DIGIT_0
    ensures n < 10 ==> |Digits(n)| == 1
  {
    if n < 10 {
      assert Digits(n)[..0] == [];
    } else {
      DigitsAreDecimal(n / 10);
      var d := [(0x30 + n % 10) as byte];
      assert (Digits(n / 10) + d)[..|Digits(n)| - 1] == Digits(n / 10);
    }
  }

  function Magnitude(i: int): nat {
    if i < 0 then -i else i
  }

  lemma IntDoc(i: Int32)
    ensures var digits := Digits(Magnitude(i));
            && WellFormedNumber(i < 0, digits)
            && NumberMeaning(i < 0, digits) == i
            && RenderNumber(i < 0, digits) == PrintInt(i)
  {
    DigitsAreDecimal(Magnitude(i));
  }

  // ---- strings ----

  function CharOf(c: byte): Char {
    if c == BS then Short(LOWER_B)
    else if c == LF then Short(LOWER_N)
    else if c == CR then Short(LOWER_R)
    else if c == TAB then Short(LOWER_T)
    else if c == DQUOTE then Short(DQUOTE)
    else if c < SPACE then Unicode([DIGIT_0, DIGIT_0, HexChar(c as int / 16), HexChar(c as int % 16)])
    else Plain(c)
  }

  function CharsOf(s: bytes): seq<Char> {
    if s == [] then [] else [CharOf(s[0])] + CharsOf(s[1..])
  }

  lemma CharOfByte(c: byte)
    requires c != NUL && c != BACKSLASH
    ensures WellFormedChar(CharOf(c)) && RenderChar(CharOf(c)) == EscapeByte(c) && CharMeaning(CharOf(c)) == [c]
  {
    if CharOf(c).Unicode? {
      assert HexValue(CharOf(c).hex) == c as int / 16 * 16 + c as int % 16;
    }
  }

  lemma {:induction false} CharsOfString(s: bytes)
    requires PlainText(s)
    ensures WellFormedChars(CharsOf(s)) && RenderChars(CharsOf(s)) == Escape(s) && CharsMeaning(CharsOf(s)) == s
  {
    hide CharOf, RenderChar, EscapeByte, CharMeaning, WellFormedChar;
    if s != [] {
      var c, rest := s[0], s[1..];
      CharOfByte(c);
      CharsOfString(rest);
      var chars := CharsOf(s);
      assert chars[0] == CharOf(c) && chars[1..] == CharsOf(rest);
      assert WellFormedChars(chars);
      assert s == [c] + rest;
    }
  }

  // ---- values ----

  function DocOf(v: Value): Doc
    decreases v, 1
  {
    match v
    case Null => NullDoc
    case Bool(b) => BoolDoc(b)
    case Int(i) => NumberDoc(i < 0, Digits(Magnitude(i)))
    case Double(_) => NullDoc
    case String(s) => StringDoc(CharsOf(s))
    case Array(elems) => ArrayDoc([SPACE], ItemsOf(elems))
    case Object(fields) => ObjectDoc([SPACE], MembersOf(fields))
  }

  function ItemsOf(elems: seq<Value>): seq<Item>
    decreases elems, 0
  {
    if elems == [] then []
    else [Item([SPACE], DocOf(elems[0]), if |elems| == 1 then [SPACE] else [])] + ItemsOf(elems[1..])
  }

  function MembersOf(fields: seq<(bytes, Value)>): seq<Member>
    decreases fields, 0
  {
    if fields == [] then []
    else
      var f := fields[0];
      assert f.1 < f;
      [Member([SPACE], CharsOf(f.0), [], [SPACE], DocOf(f.1), if |fields| == 1 then [SPACE] else [])]
      + MembersOf(fields[1..])
  }

  // The printed text is a JSON text that means the value.
  lemma PrintedTextIsStandard(v: Value, lf: DoubleFormat)
    requires Faithful(v)
    ensures WellFormed(DocOf(v)) && Render(DocOf(v)) == Print(v, lf) && Meaning(DocOf(v)) == v
    decreases v, 1
  {
    hide Escape, Digits, PrintInt, CharsOf, CharsMeaning, RenderChars, WellFormedChars, WellFormedNumber, NumberMeaning,
         RenderNumber, RenderItems, RenderMembers, PrintElems, PrintFields, ItemsOf, MembersOf;
    match v
    case Int(i) => IntDoc(i);
    case String(s) => CharsOfString(s);
    case Array(elems) => PrintedArray(elems, lf);
    case Object(fields) => PrintedObject(fields, lf);
    case _ =>
  }

  lemma PrintedArray(elems: seq<Value>, lf: DoubleFormat)
    requires forall e :: e in elems ==> Faithful(e)
    ensures var d := ArrayDoc([SPACE], ItemsOf(elems));
            WellFormed(d) && Render(d) == [LBRACKET] + PrintElems(elems, true, lf) && Meaning(d) == Array(elems)
    decreases elems, 1
  {
    hide RenderItems, Faithful, RenderMembers, RenderChars, Print, DocOf;
    if elems != [] {
      PrintedElements(elems, true, lf);
      EmptyPrefix(RenderItems(ItemsOf(elems)));
    }
  }

  lemma PrintedObject(fields: seq<(bytes, Value)>, lf: DoubleFormat)
    requires Unique(fields) && forall f :: f in fields ==> PlainText(f.0) && Faithful(f.1)
    ensures var d := ObjectDoc([SPACE], MembersOf(fields));
            WellFormed(d) && Render(d) == [LBRACE] + PrintFields(fields, true, lf) && Meaning(d) == Object(fields)
    decreases fields, 1
  {
    hide RenderMembers, WellFormedMembers, MembersMeaning, Faithful, PlainText, Unique;
    if fields == [] {
      NoMembers(lf);
    } else {
      hide PrintFields, MembersOf;
      EmptyPrefix(fields);
      PrintedFields(fields, [], true, lf);
      EmptyPrefix(RenderMembers(MembersOf(fields)));
    }
  }

  lemma NoMembers(lf: DoubleFormat)
    ensures MembersOf([]) == [] && WellFormedMembers([]) && MembersMeaning([], []) == []
    ensures PrintFields([], true, lf) == [SPACE] + [RBRACE]
  {
  }

  lemma PrintedElements(elems: seq<Value>, first: bool, lf: DoubleFormat)
    requires elems != [] && forall e :: e in elems ==> Faithful(e)
    ensures var items := ItemsOf(elems);
            && WellFormedItems(items) && items != []
            && (if first then [] else [COMMA]) + RenderItems(items) == PrintElems(elems, first, lf)
            && ItemsMeaning(items) == elems
    decreases elems, 0
  {
    PrintedTextIsStandard(elems[0], lf);
    hide DocOf, Render, Meaning, WellFormed, Print, Faithful;
    var rest := elems[1..];
    var items, p := ItemsOf(elems), Print(elems[0], lf);
    assert items[1..] == ItemsOf(rest);
    if rest != [] {
      PrintedElements(rest, false, lf);
    }
    assert items[0].after + RenderItemsRest(items[1..]) == PrintElems(rest, false, lf);
    GlueElement(first, p, PrintElems(rest, false, lf));
  }

  lemma GlueElement(first: bool, p: bytes, tail: bytes)
    ensures (if first then [] else [COMMA]) + ([SPACE] + (p + tail))
         == (if first then [SPACE] else [COMMA, SPACE]) + (p + tail)
  {
  }

  lemma PrintedFields(fields: seq<(bytes, Value)>, sofar: seq<(bytes, Value)>, first: bool, lf: DoubleFormat)
    requires fields != [] && forall f :: f in fields ==> PlainText(f.0) && Faithful(f.1)
    requires Unique(sofar + fields)
    ensures var members := MembersOf(fields);
            && WellFormedMembers(members) && members != []
            && (if first then [] else [COMMA]) + RenderMembers(members) == PrintFields(fields, first, lf)
            && MembersMeaning(members, sofar) == sofar + fields
    decreases fields, 0
  {
    var f, rest := fields[0], fields[1..];
    assert f.1 < f;
    PrintedTextIsStandard(f.1, lf);
    CharsOfString(f.0);
    hide DocOf, Render, Meaning, WellFormed, Print, Faithful, CharsOf, Escape, RenderChars, CharsMeaning, Remove,
         WellFormedChars;
    var members, p := MembersOf(fields), Print(f.1, lf);
    assert members[1..] == MembersOf(rest);
    AddAbsent(sofar, fields);
    if rest != [] {
      PrintedFields(rest, sofar + [f], false, lf);
    }
    assert members[0].after + RenderMembersRest(members[1..]) == PrintFields(rest, false, lf);
    GlueField(first, Escape(f.0));
    assert (if first then [] else [COMMA]) + RenderKey(members[0]) == PrintName(f.0, first);
    GlueTail(if first then [] else [COMMA], RenderKey(members[0]), p + PrintFields(rest, false, lf));
  }

  lemma AddAbsent(sofar: seq<(bytes, Value)>, fields: seq<(bytes, Value)>)
    requires fields != [] && Unique(sofar + fields)
    ensures Add(sofar, fields[0].0, fields[0].1) == sofar + [fields[0]]
    ensures sofar + [fields[0]] + fields[1..] == sofar + fields
  {
    var f := fields[0];
    assert f == (f.0, f.1);
    assert !Has(sofar, f.0) by {
      assert (sofar + fields)[|sofar|] == f;
      assert forall i :: 0 <= i < |sofar| ==> sofar[i] == (sofar + fields)[i];
    }
    RemoveAbsent(sofar, f.0);
  }

  lemma GlueField(first: bool, name: bytes)
    ensures (if first then [] else [COMMA]) + ([SPACE] + ([DQUOTE] + (name + [DQUOTE]) + ([] + ([COLON] + [SPACE]))))
         == (if first then [] else [COMMA]) + [SPACE, DQUOTE] + name + [DQUOTE, COLON, SPACE]
  {
  }

  lemma GlueTail(a: bytes, b: bytes, c: bytes)
    ensures a + (b + c) == a + b + c
  {
  }

  lemma NothingAround(s: bytes, end: bytes)
    ensures [] + s + [] + end == s + end
  {
  }

  // Parsing the printed text of a value gives the value back, key order included.
  lemma ParsePrint(v: Value, lf: DoubleFormat, scanf: Scanf)
    requires Faithful(v)
    ensures var t := Text(Print(v, lf) + [NUL], scanf);
            t.Valid() && t.ParseAt(0) == Ok(v, t.End())
  {
    PrintedTextIsStandard(v, lf);
    var t := Text(Print(v, lf) + [NUL], scanf);
    hide Print, DocOf, Render, Meaning, WellFormed, Text.ParseAt, Faithful, Text.Valid;
    NothingAround(Print(v, lf), [NUL]);
    StandardTextsAreAccepted(t, [], DocOf(v), []);
  }

  lemma FaithfulIsCStrings(v: Value)
    requires Faithful(v)
    ensures CStrings(v)
  {
  }

  // The same of the two programs: json_tokener_parse after json_object_to_json_string
  method ReadBack(v: Value, lf: DoubleFormat, scanf: Scanf) returns (o: Outcome)
    requires Faithful(v)
    ensures o == Done(v)
  {
    FaithfulIsCStrings(v);
    var s, _ := ToJsonString(v, null, lf);
    ParsePrint(v, lf, scanf);
    var end;
    o, end := Tokener.Parse(Text(s + [NUL], scanf));
  }
}
