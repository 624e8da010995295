/** The printers of json_object.c, which append a value's text to a print buffer. */
module Printer {
  import opened Bytes
  import opened Json
  import PrintBuf

  // What "%lf" prints for a double, given by the literal it was scanned from
  type DoubleFormat = bytes -> bytes

  // ---- the text of a value ----

  function EscapeByte(c: byte): bytes {
    if c == BS then [BACKSLASH, LOWER_B]
    else if c == LF then [BACKSLASH, LOWER_N]
    else if c == CR then [BACKSLASH, LOWER_R]
    else if c == TAB then [BACKSLASH, LOWER_T]
    else if c == DQUOTE then [BACKSLASH, DQUOTE]
    else if c < SPACE then [BACKSLASH, LOWER_U, DIGIT_0, DIGIT_0, HexChar(c as int / 16), HexChar(c as int % 16)]
    else [c]
  }

  predicate NeedsEscape(c: byte) {
    c < SPACE || c == DQUOTE
  }

  lemma EscapeOne(c: byte)
    ensures NeedsEscape(c) <==> EscapeByte(c) != [c]
  {
  }

  function Escape(s: bytes): bytes {
    if s == [] then [] else EscapeByte(s[0]) + Escape(s[1..])
  }

  function Digits(n: nat): bytes {
    if n < 10 then [(0x30 + n) as byte] else Digits(n / 10) + [(0x30 + n % 10) as byte]
  }

  function PrintInt(i: int): bytes {
    if i < 0 then [MINUS] + Digits(-i) else Digits(i)
  }

  function Print(v: Value, lf: DoubleFormat): bytes
    decreases v, 1
  {
    match v
    case Null => NULL_TEXT
    case Bool(b) => if b then TRUE_TEXT else FALSE_TEXT
    case Int(i) => PrintInt(i)
    case Double(literal) => lf(literal)
    case String(s) => [DQUOTE] + (Escape(s) + [DQUOTE])
    case Array(elems) => [LBRACKET] + PrintElems(elems, true, lf)
    case Object(fields) => [LBRACE] + PrintFields(fields, true, lf)
  }

  // The elements that are left and the closing bracket
  function PrintElems(elems: seq<Value>, first: bool, lf: DoubleFormat): bytes
    decreases elems, 0
  {
    if elems == [] then [SPACE, RBRACKET]
    else (if first then [SPACE] else [COMMA, SPACE]) + (Print(elems[0], lf) + PrintElems(elems[1..], false, lf))
  }

  function PrintName(name: bytes, first: bool): bytes {
    (if first then [] else [COMMA]) + [SPACE, DQUOTE] + Escape(name) + [DQUOTE, COLON, SPACE]
  }

  // The fields that are left and the closing brace
  function PrintFields(fields: seq<(bytes, Value)>, first: bool, lf: DoubleFormat): bytes
    decreases fields, 0
  {
    if fields == [] then [SPACE, RBRACE]
    else
      var f := fields[0];
      assert f.1 < f;
      PrintName(f.0, first) + (Print(f.1, lf) + PrintFields(fields[1..], false, lf))
  }

  // C strings hold no NUL.
  ghost predicate CStrings(v: Value) {
    match v
    case String(s) => NUL !in s
    case Array(elems) => forall e :: e in elems ==> CStrings(e)
    case Object(fields) => forall f :: f in fields ==> NUL !in f.0 && CStrings(f.1)
    case _ => true
  }

  // ---- the printers ----

  // json_object_to_json_string. An object keeps the buffer it was printed to and is
  // printed to it again; nothing of the earlier text is left.
  method ToJsonString(v: Value, kept: PrintBuf.PrintBuf?, lf: DoubleFormat)
    returns (s: bytes, pb: PrintBuf.PrintBuf?)
    requires CStrings(v) && (kept != null ==> kept.Valid())
    modifies if kept == null then {} else {kept, kept.buf}
    ensures s == Print(v, lf)
    ensures !v.Null? ==> pb != null && pb.Valid() && pb.Contents() == s && (kept != null ==> pb == kept)
  {
    if v.Null? {
      return NULL_TEXT, kept;
    }
    if kept == null {
      pb := new PrintBuf.PrintBuf();
    } else {
      pb := kept;
      pb.Reset();
    }
    PrintTo(pb, v, lf);
    s := pb.Contents();
  }

  // json_escape_str: runs of characters that need no escape are copied at once.
  method EscapeStr(pb: PrintBuf.PrintBuf, str: bytes)
    requires pb.Valid() && NUL !in str
    modifies pb, pb.buf
    ensures pb.Valid() && (pb.buf == old(pb.buf) || fresh(pb.buf))
    ensures pb.Contents() == old(pb.Contents()) + Escape(str)
  {
    hide PrintBuf.PrintBuf.Contents, PrintBuf.PrintBuf.Valid, EscapeByte, Escape, Emitted;
    ghost var before := pb.Contents();
    NothingEmitted(before, str);
    var pos, start := 0, 0;
    while true
      invariant 0 <= start <= pos <= |str|
      invariant pb.Valid() && (pb.buf == old(pb.buf) || fresh(pb.buf))
      invariant Emitted(pb.Contents(), before, str, start, pos)
      decreases |str| - pos
    {
      var c := if pos < |str| then str[pos] else NUL;
      if c == NUL {
        break;
      }
      EmitNext(pb.Contents(), before, str, start, pos);
      if NeedsEscape(c) {
        Flush(pb, str, start, pos);
        pb.MemAppend(EscapeByte(c));
        pos := pos + 1;
        start := pos;
      } else {
        pos := pos + 1;
      }
    }
    EmittedAll(pb.Contents(), before, str, start);
    Flush(pb, str, start, pos);
  }

  // The buffer and the pending run are the escapes of what has been read.
  ghost predicate Emitted(content: bytes, before: bytes, str: bytes, start: nat, pos: nat) {
    start <= pos <= |str| && content + str[start..pos] == before + Escape(str[..pos])
  }

  lemma NothingEmitted(before: bytes, str: bytes)
    ensures Emitted(before, before, str, 0, 0)
  {
    assert str[..0] == [] && before + [] == before;
  }

  // One more byte joins the run, or ends it.
  lemma EmitNext(content: bytes, before: bytes, str: bytes, start: nat, pos: nat)
    requires Emitted(content, before, str, start, pos) && pos < |str|
    ensures if NeedsEscape(str[pos]) then
              Emitted(content + str[start..pos] + EscapeByte(str[pos]), before, str, pos + 1, pos + 1)
            else Emitted(content, before, str, start, pos + 1)
  {
    hide EscapeByte, Escape, NeedsEscape;
    EscapeNext(str, pos);
    EscapeOne(str[pos]);
    Assoc(before, Escape(str[..pos]), EscapeByte(str[pos]));
    if NeedsEscape(str[pos]) {
      var all := content + str[start..pos] + EscapeByte(str[pos]);
      assert all + str[pos + 1..pos + 1] == all;
    } else {
      RunGrows(content, str, start, pos);
    }
  }

  lemma EmittedAll(content: bytes, before: bytes, str: bytes, start: nat)
    requires Emitted(content, before, str, start, |str|)
    ensures content + str[start..|str|] == before + Escape(str)
  {
    assert str[..|str|] == str;
  }

  method Flush(pb: PrintBuf.PrintBuf, str: bytes, start: nat, pos: nat)
    requires pb.Valid() && start <= pos <= |str|
    modifies pb, pb.buf
    ensures pb.Valid() && (pb.buf == old(pb.buf) || fresh(pb.buf))
    ensures pb.Contents() == old(pb.Contents()) + str[start..pos]
  {
    hide PrintBuf.PrintBuf.Contents, PrintBuf.PrintBuf.Valid;
    if pos - start > 0 {
      pb.MemAppend(str[start..pos]);
    }
  }

  lemma Assoc(a: bytes, b: bytes, c: bytes)
    ensures a + (b + c) == a + b + c
  {
  }

  lemma AssocTwice(a: bytes, b: bytes, c: bytes, d: bytes)
    ensures a + (b + (c + d)) == a + b + c + d
  {
  }

  lemma RunGrows(a: bytes, str: bytes, start: nat, pos: nat)
    requires start <= pos < |str|
    ensures a + str[start..pos + 1] == a + str[start..pos] + [str[pos]]
  {
  }

  lemma {:induction false} EscapeAppend(s: bytes, c: byte)
    ensures Escape(s + [c]) == Escape(s) + EscapeByte(c)
  {
    hide EscapeByte;
    if s == [] {
      assert Escape([c]) == EscapeByte(c) + Escape([]);
    } else {
      assert (s + [c])[1..] == s[1..] + [c];
      EscapeAppend(s[1..], c);
    }
  }

  lemma EscapeNext(s: bytes, pos: nat)
    requires pos < |s|
    ensures Escape(s[..pos + 1]) == Escape(s[..pos]) + EscapeByte(s[pos])
  {
    assert s[..pos + 1] == s[..pos] + [s[pos]];
    EscapeAppend(s[..pos], s[pos]);
  }

  // The _to_json_string function of v's type
  method PrintTo(pb: PrintBuf.PrintBuf, v: Value, lf: DoubleFormat)
    requires pb.Valid() && CStrings(v)
    modifies pb, pb.buf
    ensures pb.Valid() && (pb.buf == old(pb.buf) || fresh(pb.buf))
    ensures pb.Contents() == old(pb.Contents()) + Print(v, lf)
    decreases v, 1
  {
    hide PrintBuf.PrintBuf.Contents, PrintBuf.PrintBuf.Valid, PrintInt, Escape;
    match v
    case Null => pb.MemAppend(NULL_TEXT);
    case Bool(b) => pb.MemAppend(if b then TRUE_TEXT else FALSE_TEXT);
    case Int(i) => pb.MemAppend(PrintInt(i));
    case Double(literal) => pb.MemAppend(lf(literal));
    case String(s) =>
      pb.MemAppend([DQUOTE]);
      EscapeStr(pb, s);
      pb.MemAppend([DQUOTE]);
    case Array(elems) => PrintArray(pb, elems, lf);
    case Object(fields) => PrintObject(pb, fields, lf);
  }

  method PrintArray(pb: PrintBuf.PrintBuf, elems: seq<Value>, lf: DoubleFormat)
    requires pb.Valid() && forall e :: e in elems ==> CStrings(e)
    modifies pb, pb.buf
    ensures pb.Valid() && (pb.buf == old(pb.buf) || fresh(pb.buf))
    ensures pb.Contents() == old(pb.Contents()) + ([LBRACKET] + PrintElems(elems, true, lf))
    decreases elems, 0
  {
    hide PrintBuf.PrintBuf.Contents, PrintBuf.PrintBuf.Valid, Print, CStrings;
    ghost var goal := pb.Contents() + ([LBRACKET] + PrintElems(elems, true, lf));
    pb.MemAppend([LBRACKET]);
    for i := 0 to |elems|
      invariant pb.Valid() && (pb.buf == old(pb.buf) || fresh(pb.buf))
      invariant pb.Contents() + PrintElems(elems[i..], i == 0, lf) == goal
    {
      assert elems[i..][1..] == elems[i + 1..];
      AssocTwice(pb.Contents(), if i != 0 then [COMMA, SPACE] else [SPACE], Print(elems[i], lf),
                 PrintElems(elems[i + 1..], false, lf));
      pb.MemAppend(if i != 0 then [COMMA, SPACE] else [SPACE]);
      PrintTo(pb, elems[i], lf);
    }
    pb.MemAppend([SPACE, RBRACKET]);
  }

  method PrintObject(pb: PrintBuf.PrintBuf, fields: seq<(bytes, Value)>, lf: DoubleFormat)
    requires pb.Valid() && forall f :: f in fields ==> NUL !in f.0 && CStrings(f.1)
    modifies pb, pb.buf
    ensures pb.Valid() && (pb.buf == old(pb.buf) || fresh(pb.buf))
    ensures pb.Contents() == old(pb.Contents()) + ([LBRACE] + PrintFields(fields, true, lf))
    decreases fields, 0
  {
    hide PrintBuf.PrintBuf.Contents, PrintBuf.PrintBuf.Valid, Print, CStrings, PrintName;
    ghost var goal := pb.Contents() + ([LBRACE] + PrintFields(fields, true, lf));
    pb.MemAppend([LBRACE]);
    for i := 0 to |fields|
      invariant pb.Valid() && (pb.buf == old(pb.buf) || fresh(pb.buf))
      invariant pb.Contents() + PrintFields(fields[i..], i == 0, lf) == goal
    {
      assert fields[i..][1..] == fields[i + 1..];
      var f := fields[i];
      assert f.1 < f;
      AssocTwice(pb.Contents(), PrintName(f.0, i == 0), Print(f.1, lf), PrintFields(fields[i + 1..], false, lf));
      PrintFieldName(pb, f.0, i == 0);
      PrintTo(pb, f.1, lf);
    }
    pb.MemAppend([SPACE, RBRACE]);
  }

  method PrintFieldName(pb: PrintBuf.PrintBuf, name: bytes, first: bool)
    requires pb.Valid() && NUL !in name
    modifies pb, pb.buf
    ensures pb.Valid() && (pb.buf == old(pb.buf) || fresh(pb.buf))
    ensures pb.Contents() == old(pb.Contents()) + PrintName(name, first)
  {
    hide PrintBuf.PrintBuf.Contents, PrintBuf.PrintBuf.Valid, Escape;
    if !first {
      pb.MemAppend([COMMA]);
    }
    pb.MemAppend([SPACE, DQUOTE]);
    EscapeStr(pb, name);
    pb.MemAppend([DQUOTE, COLON, SPACE]);
  }
}
