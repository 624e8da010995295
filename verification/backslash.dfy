/** The printer does not escape the backslash: which values are read back.

    A string is read from a text that is at least as long as Cost says; what is printed for
    a string with a backslash is shorter than that. So its reading ends too soon, or takes
    the closing quote for an escaped one; then the parser is lost and does not come back. */
module Backslash {
  import opened Bytes
  import opened OrderedMap
  import opened Json
  import opened Reader
  import opened Printer
  import opened Rfc8259
  import opened RoundTrip
  import opened Layout

  // The least number of characters from which c is read between double quotes, if no
  // control character stands there unescaped
  function ByteCost(c: byte): (n: nat)
    ensures 1 <= n && n >= |EscapeByte(c)| && (c == BACKSLASH ==> n > |EscapeByte(c)|)
  {
    if c == BACKSLASH then 2 else |EscapeByte(c)|
  }

  function Cost(s: bytes): nat {
    if s == [] then 0 else Cost(s[..|s| - 1]) + ByteCost(s[|s| - 1])
  }

  lemma CostOfMore(s: bytes, c: byte)
    ensures Cost(s + [c]) == Cost(s) + ByteCost(c)
  {
    assert (s + [c])[..|s|] == s;
  }

  lemma {:induction false} CostOfPrefix(s: bytes, n: nat)
    requires n <= |s|
    ensures Cost(s[..n]) + (|s| - n) <= Cost(s)
  {
    if n < |s| {
      CostOfPrefix(s[..|s| - 1], n);
      assert s[..|s| - 1][..n] == s[..n];
    } else {
      assert s[..n] == s;
    }
  }

  // A string with a backslash is printed in fewer characters than it costs.
  lemma {:induction false} PrintedTooShort(s: bytes)
    ensures |Escape(s)| <= Cost(s) && (BACKSLASH in s ==> |Escape(s)| < Cost(s))
  {
    hide EscapeByte, ByteCost;
    if s != [] {
      var front, c := s[..|s| - 1], s[|s| - 1];
      assert s == front + [c];
      PrintedTooShort(front);
      EscapeAppend(front, c);
      assert BACKSLASH in s ==> BACKSLASH in front || c == BACKSLASH;
    }
  }

  lemma {:induction false} EscapeIsPrintable(s: bytes)
    ensures forall i :: 0 <= i < |Escape(s)| ==> Escape(s)[i] >= SPACE
    ensures s != [] ==> Escape(s) != [] && (Escape(s)[|Escape(s)| - 1] == BACKSLASH ==> s[|s| - 1] == BACKSLASH)
  {
    hide EscapeByte;
    if s != [] {
      EscapeIsPrintable(s[1..]);
      EscapeByteIsPrintable(s[0]);
      assert s[1..] == [] ==> Escape(s) == EscapeByte(s[0]);
    }
  }

  lemma EscapeByteIsPrintable(c: byte)
    ensures var e := EscapeByte(c);
            e != [] && (forall i :: 0 <= i < |e| ==> e[i] >= SPACE) && (e[|e| - 1] == BACKSLASH ==> c == BACKSLASH)
  {
  }

  // ---- reading costs ----

  // What came of the text from r to the quote at c, when paid had been spent before r: the
  // string ended there or sooner, or that quote was taken for an escaped one, behind y.
  ghost predicate Paid(t: Text, r: nat, c: nat, paid: nat, l: Lex<bytes>, y: bytes)
    requires t.Valid() && c < t.End()
  {
    l.Token? ==>
      || (l.end <= c + 1 && Cost(l.value) + r + 1 <= paid + l.end)
      || (c > 0 && t.source[c - 1] == BACKSLASH && l == t.StringBody(c + 1, DQUOTE, y + [DQUOTE])
          && Cost(y + [DQUOTE]) + r <= paid + c + 1)
  }

  lemma {:induction false} ReadBody(t: Text, r: nat, c: nat, sofar: bytes) returns (y: bytes)
    requires t.Valid() && r <= c < t.End() && t.source[c] == DQUOTE
    requires forall i :: r <= i < c ==> t.source[i] >= SPACE
    ensures Paid(t, r, c, Cost(sofar), t.StringBody(r, DQUOTE, sofar), y)
    decreases c - r
  {
    hide Cost, Utf8, HexValue;
    var ch := t.source[r];
    y := sofar;
    if ch == DQUOTE {
    } else if ch == BACKSLASH {
      var e := t.source[r + 1];
      if e == LOWER_U {
        y := ReadUnicodeEscape(t, r, c, sofar);
      } else if e == DQUOTE || e == BACKSLASH || IsControlEscape(e) {
        var b := if IsControlEscape(e) then ControlChar(e) else e;
        CostOfMore(sofar, b);
        if r + 1 < c {
          y := ReadBody(t, r + 2, c, sofar + [b]);
        }
      }
    } else {
      CostOfMore(sofar, ch);
      y := ReadBody(t, r + 1, c, sofar + [ch]);
    }
  }

  lemma ReadUnicodeEscape(t: Text, r: nat, c: nat, sofar: bytes) returns (y: bytes)
    requires t.Valid() && r + 1 < c < t.End() && t.source[c] == DQUOTE
    requires forall i :: r <= i < c ==> t.source[i] >= SPACE
    requires t.source[r] == BACKSLASH && t.source[r + 1] == LOWER_U
    ensures Paid(t, r, c, Cost(sofar), t.StringBody(r, DQUOTE, sofar), y)
    decreases c - r, 0
  {
    hide Cost, Utf8, HexValue, Text.StringBody;
    assert t.StringBody(r, DQUOTE, sofar) == t.StringUnicode(r + 2, 0, DQUOTE, sofar) by {
      BodyAtUnicode(t, r, sofar);
    }
    y := sofar;
    if t.StringUnicode(r + 2, 0, DQUOTE, sofar).Token? {
      FourDigits(t, r + 2, sofar);
      var u := HexValue(t.source[r + 2..r + 6]);
      Utf8Cost(u, sofar);
      y := ReadBody(t, r + 6, c, sofar + Utf8(u));
    }
  }

  lemma BodyAtUnicode(t: Text, r: nat, sofar: bytes)
    requires t.Valid() && r + 1 < t.End() && t.source[r] == BACKSLASH && t.source[r + 1] == LOWER_U
    ensures t.StringBody(r, DQUOTE, sofar) == t.StringUnicode(r + 2, 0, DQUOTE, sofar)
  {
  }

  lemma FourDigits(t: Text, p: nat, sofar: bytes)
    requires t.Valid() && p <= t.End() && t.StringUnicode(p, 0, DQUOTE, sofar).Token?
    ensures p + 4 <= t.End() && forall i :: p <= i < p + 4 ==> IsHexChar(t.source[i])
    ensures t.StringUnicode(p, 0, DQUOTE, sofar)
         == t.StringBody(p + 4, DQUOTE, sofar + Utf8(HexValue(t.source[p..p + 4])))
  {
    hide Text.StringBody, Utf8, HexValue;
    assert t.StringUnicode(p, 0, DQUOTE, sofar) == t.StringUnicode(p, 1, DQUOTE, sofar);
    assert t.StringUnicode(p, 1, DQUOTE, sofar) == t.StringUnicode(p, 2, DQUOTE, sofar);
    assert t.StringUnicode(p, 2, DQUOTE, sofar) == t.StringUnicode(p, 3, DQUOTE, sofar);
    assert t.StringUnicode(p, 3, DQUOTE, sofar) == t.StringUnicode(p, 4, DQUOTE, sofar);
  }

  lemma Utf8Cost(u: int, s: bytes)
    requires 0 <= u < 0x1_0000
    ensures Cost(s + Utf8(u)) <= Cost(s) + 6
  {
    hide Cost;
    var b := Utf8(u);
    CostOfMore(s, b[0]);
    if |b| > 1 {
      CostOfMore(s + [b[0]], b[1]);
      assert s + b[..2] == s + [b[0]] + [b[1]];
      if |b| > 2 {
        CostOfMore(s + b[..2], b[2]);
        assert s + b == s + b[..2] + [b[2]];
      } else {
        assert b[..2] == b;
      }
    } else {
      assert b == [b[0]];
    }
  }

  // ---- the layout of a printed text ----

  // The marks of a printed piece: all outside, or a string in its quotes
  function Plain(n: nat): (m: seq<bool>)
    ensures |m| == n && forall i :: 0 <= i < n ==> !m[i]
  {
    seq(n, _ => false)
  }

  function Quoted(s: bytes): (m: seq<bool>)
    ensures |m| == |Escape(s)| + 2 && !m[0] && forall i :: 1 <= i < |m| ==> m[i]
  {
    [false] + seq(|Escape(s)| + 1, _ => true)
  }

  function Marks(v: Value, lf: DoubleFormat): (m: seq<bool>)
    ensures |m| == |Print(v, lf)|
    decreases v, 1
  {
    match v
    case String(s) => Quoted(s)
    case Array(elems) => Plain(1) + ElemMarks(elems, true, lf)
    case Object(fields) => Plain(1) + FieldMarks(fields, true, lf)
    case _ => Plain(|Print(v, lf)|)
  }

  function ElemMarks(elems: seq<Value>, first: bool, lf: DoubleFormat): (m: seq<bool>)
    ensures |m| == |PrintElems(elems, first, lf)|
    decreases elems, 0
  {
    if elems == [] then Plain(2)
    else Plain(if first then 1 else 2) + (Marks(elems[0], lf) + ElemMarks(elems[1..], false, lf))
  }

  function NameMarks(name: bytes, first: bool): (m: seq<bool>)
    ensures |m| == |PrintName(name, first)|
  {
    Plain(if first then 1 else 2) + Quoted(name) + Plain(2)
  }

  function FieldMarks(fields: seq<(bytes, Value)>, first: bool, lf: DoubleFormat): (m: seq<bool>)
    ensures |m| == |PrintFields(fields, first, lf)|
    decreases fields, 0
  {
    if fields == [] then Plain(2)
    else
      var f := fields[0];
      assert f.1 < f;
      NameMarks(f.0, first) + (Marks(f.1, lf) + FieldMarks(fields[1..], false, lf))
  }

  ghost predicate LaidOut(s: bytes, m: seq<bool>) {
    |m| == |s| && !Inside(m, 0) && forall p :: 0 <= p < |s| ==> Local(s, m, p)
  }

  lemma LaidOutConcat(a: bytes, m: seq<bool>, b: bytes, n: seq<bool>)
    requires LaidOut(a, m) && LaidOut(b, n)
    ensures LaidOut(a + b, m + n)
  {
    forall p | 0 <= p < |a + b| ensures Local(a + b, m + n, p) {
      if p < |a| {
        assert Local(a, m, p);
      } else {
        assert Local(b, n, p - |a|);
      }
    }
  }

  lemma PlainIsLaidOut(s: bytes)
    requires forall i :: 0 <= i < |s| ==> s[i] >= SPACE
    requires DQUOTE !in s && BACKSLASH !in s && SQUOTE !in s && SLASH !in s
    ensures LaidOut(s, Plain(|s|))
  {
  }

  lemma {:induction false} EscapedQuotes(s: bytes)
    ensures forall i :: 0 <= i < |Escape(s)| && Escape(s)[i] == DQUOTE ==> i > 0 && Escape(s)[i - 1] == BACKSLASH
  {
    if s != [] {
      EscapedQuotes(s[1..]);
      assert forall i :: 0 <= i < |EscapeByte(s[0])| && EscapeByte(s[0])[i] == DQUOTE ==>
               i > 0 && EscapeByte(s[0])[i - 1] == BACKSLASH;
      hide EscapeByte;
    }
  }

  lemma QuotedIsLaidOut(s: bytes)
    ensures LaidOut([DQUOTE] + (Escape(s) + [DQUOTE]), Quoted(s))
  {
    hide Escape;
    var e := Escape(s);
    var text := [DQUOTE] + (e + [DQUOTE]);
    EscapedQuotes(s);
    EscapeIsPrintable(s);
    forall p | 0 <= p < |text| ensures Local(text, Quoted(s), p) {
      assert 1 <= p <= |e| ==> text[p] == e[p - 1];
      assert 2 <= p <= |e| ==> text[p - 1] == e[p - 2];
    }
  }

  // ---- the values in question ----

  // Any tree of the C library without doubles: strings end before a NUL, and no object has a key twice.
  ghost predicate Tree(v: Value) {
    match v
    case Double(_) => false
    case String(s) => NUL !in s
    case Array(elems) => forall e :: e in elems ==> Tree(e)
    case Object(fields) => Unique(fields) && forall f :: f in fields ==> NUL !in f.0 && Tree(f.1)
    case _ => true
  }

  lemma TreeStarts(v: Value, lf: DoubleFormat)
    requires Tree(v)
    ensures Print(v, lf) != [] && StartsToken(Print(v, lf)[0]) && Print(v, lf)[0] != RBRACKET
  {
    if v.Int? {
      DigitsAreDecimal(Magnitude(v.i));
    }
  }

  lemma ScalarIsPlain(v: Value, lf: DoubleFormat)
    requires v.Null? || v.Bool? || v.Int?
    ensures LaidOut(Print(v, lf), Marks(v, lf))
  {
    if v.Int? {
      DigitsAreDecimal(Magnitude(v.i));
      hide Digits;
      assert forall i :: 0 <= i < |PrintInt(v.i)| ==> PrintInt(v.i)[i] == MINUS || IsDigit(PrintInt(v.i)[i]);
    }
    PlainIsLaidOut(Print(v, lf));
  }

  lemma PrintIsLaidOut(v: Value, lf: DoubleFormat)
    requires Tree(v)
    ensures LaidOut(Print(v, lf), Marks(v, lf))
    decreases v, 1
  {
    hide LaidOut, PrintElems, PrintFields, ElemMarks, FieldMarks, Quoted, Escape, PrintInt;
    match v
    case String(s) => QuotedIsLaidOut(s);
    case Array(elems) =>
      PlainIsLaidOut([LBRACKET]);
      ElemsAreLaidOut(elems, true, lf);
      LaidOutConcat([LBRACKET], Plain(1), PrintElems(elems, true, lf), ElemMarks(elems, true, lf));
    case Object(fields) =>
      PlainIsLaidOut([LBRACE]);
      FieldsAreLaidOut(fields, true, lf);
      LaidOutConcat([LBRACE], Plain(1), PrintFields(fields, true, lf), FieldMarks(fields, true, lf));
    case _ => ScalarIsPlain(v, lf);
  }

  lemma ElemsAreLaidOut(elems: seq<Value>, first: bool, lf: DoubleFormat)
    requires forall e :: e in elems ==> Tree(e)
    ensures LaidOut(PrintElems(elems, first, lf), ElemMarks(elems, first, lf))
    decreases elems, 0
  {
    hide LaidOut, Print, Marks, Tree;
    if elems == [] {
      PlainIsLaidOut([SPACE, RBRACKET]);
    } else {
      var sep: bytes := if first then [SPACE] else [COMMA, SPACE];
      var e, rest := elems[0], elems[1..];
      PlainIsLaidOut(sep);
      PrintIsLaidOut(e, lf);
      ElemsAreLaidOut(rest, false, lf);
      LaidOutConcat(Print(e, lf), Marks(e, lf), PrintElems(rest, false, lf), ElemMarks(rest, false, lf));
      LaidOutConcat(sep, Plain(|sep|), Print(e, lf) + PrintElems(rest, false, lf),
                    Marks(e, lf) + ElemMarks(rest, false, lf));
    }
  }

  lemma FieldsAreLaidOut(fields: seq<(bytes, Value)>, first: bool, lf: DoubleFormat)
    requires forall f :: f in fields ==> Tree(f.1)
    ensures LaidOut(PrintFields(fields, first, lf), FieldMarks(fields, first, lf))
    decreases fields, 0
  {
    hide LaidOut, Print, Marks, Tree, PrintName, NameMarks;
    if fields == [] {
      PlainIsLaidOut([SPACE, RBRACE]);
    } else {
      var f, rest := fields[0], fields[1..];
      assert f.1 < f;
      NameIsLaidOut(f.0, first);
      PrintIsLaidOut(f.1, lf);
      FieldsAreLaidOut(rest, false, lf);
      LaidOutConcat(Print(f.1, lf), Marks(f.1, lf), PrintFields(rest, false, lf), FieldMarks(rest, false, lf));
      LaidOutConcat(PrintName(f.0, first), NameMarks(f.0, first), Print(f.1, lf) + PrintFields(rest, false, lf),
                    Marks(f.1, lf) + FieldMarks(rest, false, lf));
    }
  }

  // A name in its quotes, between a separator and the colon
  lemma NameParts(name: bytes, first: bool)
    ensures PrintName(name, first) == (if first then [SPACE] else [COMMA, SPACE])
                                      + ([DQUOTE] + (Escape(name) + [DQUOTE])) + [COLON, SPACE]
  {
    hide Escape;
  }

  lemma NameIsLaidOut(name: bytes, first: bool)
    ensures LaidOut(PrintName(name, first), NameMarks(name, first))
  {
    hide LaidOut, Escape, Quoted, PrintName;
    var sep: bytes := if first then [SPACE] else [COMMA, SPACE];
    var quoted := [DQUOTE] + (Escape(name) + [DQUOTE]);
    NameParts(name, first);
    PlainIsLaidOut(sep);
    QuotedIsLaidOut(name);
    PlainIsLaidOut([COLON, SPACE]);
    LaidOutConcat(sep, Plain(|sep|), quoted, Quoted(name));
    LaidOutConcat(sep + quoted, Plain(|sep|) + Quoted(name), [COLON, SPACE], Plain(2));
  }

  // ---- reading along the layout ----

  // The piece s stands at p, with its marks n.
  ghost predicate Stands(t: Text, m: seq<bool>, p: nat, s: bytes, n: seq<bool>) {
    Laid(t, m) && Holds(t, p, s) && |n| == |s| && p + |n| <= |m| && m[p..p + |n|] == n
  }

  lemma StandsSplit(t: Text, m: seq<bool>, p: nat, a: bytes, na: seq<bool>, b: bytes, nb: seq<bool>)
    requires Stands(t, m, p, a + b, na + nb) && |na| == |a|
    ensures Stands(t, m, p, a, na) && Stands(t, m, p + |a|, b, nb)
    ensures nb != [] ==> Inside(m, p + |a|) == nb[0]
  {
    HoldsSplit(t, p, a, b);
    var n := na + nb;
    assert n[..|na|] == na && n[|na|..] == nb;
    assert m[p..p + |na|] == m[p..p + |n|][..|na|];
    assert m[p + |na|..p + |n|] == m[p..p + |n|][|na|..];
    assert nb != [] ==> m[p + |na|] == m[p + |na|..p + |n|][0];
  }

  lemma StandsIsHeld(t: Text, m: seq<bool>, p: nat, s: bytes, n: seq<bool>)
    requires Stands(t, m, p, s, n)
    ensures t.Valid() && Laid(t, m) && Holds(t, p, s) && p + |s| <= t.End()
    ensures forall i :: 0 <= i < |s| ==> t.source[p + i] == s[i] && Inside(m, p + i) == n[i]
  {
    forall i | 0 <= i < |s| ensures t.source[p + i] == s[i] && Inside(m, p + i) == n[i] {
      HoldsAt(t, p, s, i);
      assert m[p..p + |n|][i] == n[i];
    }
  }

  // Either the literal is read to its closing quote, or the parser is lost.
  lemma LiteralAligned(t: Text, m: seq<bool>, p: nat, s: bytes)
    requires Stands(t, m, p, [DQUOTE] + (Escape(s) + [DQUOTE]), Quoted(s)) && NUL !in s
    requires !Inside(m, p + |Escape(s)| + 2)
    ensures t.Valid() && p + |Escape(s)| + 2 <= t.End()
    ensures var l := t.StringBody(p + 1, DQUOTE, []);
            l.Token? ==>
              || (p < l.end && Lost(t, m, l.end))
              || (l.end == p + |Escape(s)| + 2 && (CString(l.value) == s ==> PlainText(s)))
  {
    var text := [DQUOTE] + (Escape(s) + [DQUOTE]);
    hide Stands, Laid, Lost, Text.StringBody, CString, Cost, Escape, Paid;
    StandsIsHeld(t, m, p, text, Quoted(s));
    var c := p + 1 + |Escape(s)|;
    var l := t.StringBody(p + 1, DQUOTE, []);
    PrintedTooShort(s);
    EscapeIsPrintable(s);
    forall i | p + 1 <= i < c ensures t.source[i] >= SPACE {
      assert t.source[p + (i - p)] == text[i - p] == Escape(s)[i - p - 1];
    }
    assert t.source[p + (c - p)] == text[c - p] == DQUOTE;
    var y := ReadBody(t, p + 1, c, []);
    EndsWithQuote(t, p + 1, DQUOTE, []);
    if l.Token? {
      if l.end <= c {
        assert Inside(m, p + (l.end - p)) == Quoted(s)[l.end - p];
        LostBehindQuote(t, m, l.end - 1);
      } else {
        LiteralPaid(t, m, p + 1, c, s, l, y);
      }
    }
  }

  lemma LiteralPaid(t: Text, m: seq<bool>, p: nat, c: nat, s: bytes, l: Lex<bytes>, y: bytes)
    requires Laid(t, m) && p <= c < t.End() && !Inside(m, c + 1) && |Escape(s)| == c - p && NUL !in s
    requires l.Token? && l.end > c && Paid(t, p, c, Cost([]), l, y)
    ensures Lost(t, m, l.end) || (l.end == c + 1 && (CString(l.value) == s ==> PlainText(s)))
  {
    hide Laid, Lost, Text.StringBody, CString, Escape;
    PrintedTooShort(s);
    if l.end == c + 1 && Cost(l.value) + p + 1 <= l.end {
      CostOfPrefix(l.value, |CString(l.value)|);
      assert l.value[..|CString(l.value)|] == CString(l.value);
    } else {
      OutsideEndsLost(t, m, c + 1, y + [DQUOTE]);
    }
  }

  // A value v stood up to q: the parser is lost, or has read a value up to there, and only
  // a faithful v can be what it read.
  ghost predicate Aligned(t: Text, m: seq<bool>, r: Parse, v: Value, q: nat)
    requires t.Valid() && q <= t.End()
  {
    StaysLost(t, m, r) || (r.Ok? && r == t.Finish(r.value, q) && (r.value == v ==> Faithful(v)))
  }

  lemma ValueAligned(t: Text, m: seq<bool>, p: nat, v: Value, lf: DoubleFormat)
    requires Tree(v) && Stands(t, m, p, Print(v, lf), Marks(v, lf))
    requires var q := p + |Print(v, lf)|; !Inside(m, q) && !IsNumberChar(t.source[q])
    ensures t.Valid() && p < p + |Print(v, lf)| <= t.End()
    ensures Aligned(t, m, t.ValueAt(p), v, p + |Print(v, lf)|)
    decreases v, 1
  {
    hide Stands, Laid, Lost, Holds, Aligned, Text.ValueAt, Print, Marks, Escape, Quoted, IsNumberChar, Inside,
         Text.Valid, Faithful, Text.Finish, StaysLost, StartsToken;
    TreeStarts(v, lf);
    StandsIsHeld(t, m, p, Print(v, lf), Marks(v, lf));
    PrintOf(v, lf);
    match v
    case String(s) => StringAligned(t, m, p, s);
    case Array(elems) => ArrayAligned(t, m, p, elems, lf);
    case Object(fields) => ObjectAligned(t, m, p, fields, lf);
    case _ => ScalarAligned(t, m, p, v, lf);
  }

  // How strings, arrays and objects are printed and marked
  lemma PrintOf(v: Value, lf: DoubleFormat)
    ensures v.String? ==> Print(v, lf) == [DQUOTE] + (Escape(v.s) + [DQUOTE]) && Marks(v, lf) == Quoted(v.s)
    ensures v.Array? ==> Print(v, lf) == [LBRACKET] + PrintElems(v.elems, true, lf)
                         && Marks(v, lf) == Plain(1) + ElemMarks(v.elems, true, lf)
    ensures v.Object? ==> Print(v, lf) == [LBRACE] + PrintFields(v.fields, true, lf)
                          && Marks(v, lf) == Plain(1) + FieldMarks(v.fields, true, lf)
  {
    hide PrintElems, PrintFields, ElemMarks, FieldMarks, Escape, PrintInt, Plain, Quoted;
  }

  lemma ScalarAligned(t: Text, m: seq<bool>, p: nat, v: Value, lf: DoubleFormat)
    requires (v.Null? || v.Bool? || v.Int?) && t.Valid() && Holds(t, p, Print(v, lf))
    requires p + |Print(v, lf)| <= t.End() && !IsNumberChar(t.source[p + |Print(v, lf)|])
    ensures p < t.End() && Aligned(t, m, t.ValueAt(p), v, p + |Print(v, lf)|)
  {
    hide Print, Holds, IsNumberChar, Text.ValueAt, Text.Finish, DocOf, Render, Meaning, WellFormed, StaysLost,
         StartsToken;
    PrintedTextIsStandard(v, lf);
    TreeStarts(v, lf);
    ReadValue(t, p, DocOf(v));
    FinishOrNot(t, m, v, p + |Print(v, lf)|);
  }

  lemma FinishOrNot(t: Text, m: seq<bool>, v: Value, q: nat)
    requires t.Valid() && q <= t.End()
    ensures StaysLost(t, m, t.Finish(v, q)) || t.Finish(v, q).Ok?
  {
    hide Lost, Text.Skip;
  }

  lemma ArrayAligned(t: Text, m: seq<bool>, p: nat, elems: seq<Value>, lf: DoubleFormat)
    requires forall e :: e in elems ==> Tree(e)
    requires Stands(t, m, p, [LBRACKET] + PrintElems(elems, true, lf), Plain(1) + ElemMarks(elems, true, lf))
    requires !Inside(m, p + 1 + |PrintElems(elems, true, lf)|)
    ensures t.Valid() && p < p + 1 + |PrintElems(elems, true, lf)| <= t.End()
    ensures Aligned(t, m, t.ValueAt(p), Array(elems), p + 1 + |PrintElems(elems, true, lf)|)
    decreases elems, 1
  {
    hide Stands, Laid, Lost, Holds, Text.ValueAt, Text.Finish, Text.Elements, PrintElems, ElemMarks, Inside, StaysLost,
         Tree;
    StandsSplit(t, m, p, [LBRACKET], Plain(1), PrintElems(elems, true, lf), ElemMarks(elems, true, lf));
    StandsIsHeld(t, m, p, [LBRACKET], Plain(1));
    assert t.source[p + 0] == LBRACKET;
    ElementsAligned(t, m, p + 1, elems, [], lf);
    OpenArray(t, p);
    EmptyPrefix(elems);
  }

  lemma ObjectAligned(t: Text, m: seq<bool>, p: nat, fields: seq<(bytes, Value)>, lf: DoubleFormat)
    requires Unique(fields) && forall f :: f in fields ==> NUL !in f.0 && Tree(f.1)
    requires Stands(t, m, p, [LBRACE] + PrintFields(fields, true, lf), Plain(1) + FieldMarks(fields, true, lf))
    requires !Inside(m, p + 1 + |PrintFields(fields, true, lf)|)
    ensures t.Valid() && p < p + 1 + |PrintFields(fields, true, lf)| <= t.End()
    ensures Aligned(t, m, t.ValueAt(p), Object(fields), p + 1 + |PrintFields(fields, true, lf)|)
    decreases fields, 1
  {
    hide Stands, Laid, Lost, Holds, Text.ValueAt, Text.Finish, Text.Members, PrintFields, FieldMarks, Inside, StaysLost,
         Tree, PlainText, Unique;
    StandsSplit(t, m, p, [LBRACE], Plain(1), PrintFields(fields, true, lf), FieldMarks(fields, true, lf));
    StandsIsHeld(t, m, p, [LBRACE], Plain(1));
    assert t.source[p + 0] == LBRACE;
    MembersAligned(t, m, p + 1, fields, [], lf);
    OpenObject(t, p);
    EmptyPrefix(fields);
  }

  lemma StringAligned(t: Text, m: seq<bool>, p: nat, s: bytes)
    requires Stands(t, m, p, [DQUOTE] + (Escape(s) + [DQUOTE]), Quoted(s)) && NUL !in s
    requires !Inside(m, p + |Escape(s)| + 2)
    ensures t.Valid() && p + |Escape(s)| + 2 <= t.End()
    ensures Aligned(t, m, t.ValueAt(p), String(s), p + |Escape(s)| + 2)
  {
    hide Stands, Laid, Lost, Holds, Text.StringBody, Text.Finish, Text.ValueAt, CString, Escape, Inside, PlainText;
    LiteralAligned(t, m, p, s);
    StandsIsHeld(t, m, p, [DQUOTE] + (Escape(s) + [DQUOTE]), Quoted(s));
    assert t.source[p + 0] == DQUOTE;
    AtQuote(t, p);
    var l := t.StringBody(p + 1, DQUOTE, []);
    if l.Token? && Lost(t, m, l.end) {
      FinishStaysLost(t, m, String(CString(l.value)), l.end);
    }
  }

  lemma AtQuote(t: Text, p: nat)
    requires t.Valid() && p < t.End() && t.source[p] == DQUOTE
    ensures t.ValueAt(p) == match t.StringBody(p + 1, DQUOTE, [])
                            case Bad(e) => Err(e)
                            case Token(s, q) => t.Finish(String(CString(s)), q)
  {
    hide Text.StringBody, Text.Finish, CString;
  }

  // ---- arrays ----

  ghost predicate Keeps(r: Parse, elems: seq<Value>) {
    r.Ok? ==> r.value.Array? && elems <= r.value.elems
  }

  lemma ElementsKeep(t: Text, p: nat, elems: seq<Value>)
    requires t.Valid() && p <= t.End()
    ensures Keeps(t.Elements(p, elems), elems)
    decreases t.End() - p, 6
  {
    hide Text.Look, Text.ParseAt, Text.Finish;
    if t.Look(p).Token? {
      var q := t.Look(p).end;
      if t.source[q] != RBRACKET && t.ParseAt(q).Ok? && t.ParseAt(q).end < |t.source| {
        ElementSepKeeps(t, t.ParseAt(q).end, elems + [t.ParseAt(q).value]);
      }
    }
  }

  lemma ElementSepKeeps(t: Text, p: nat, elems: seq<Value>)
    requires t.Valid() && p <= t.End()
    ensures Keeps(t.ElementSep(p, elems), elems)
    decreases t.End() - p, 6
  {
    hide Text.Look, Text.Finish, Text.Elements;
    if t.Look(p).Token? && t.source[t.Look(p).end] == COMMA {
      ElementsKeep(t, t.Look(p).end + 1, elems);
    }
  }

  // Behind a space: an element, and what becomes of the array with it
  lemma OnElement(t: Text, p: nat, sofar: seq<Value>)
    requires t.Valid() && p + 1 < t.End() && t.source[p] == SPACE
    requires StartsToken(t.source[p + 1]) && t.source[p + 1] != RBRACKET
    ensures t.Look(p) == Token((), p + 1)
    ensures t.ParseAt(p + 1) == t.ValueAt(p + 1)
    ensures t.Elements(p, sofar) == match t.ValueAt(p + 1)
                                    case Err(e) => Err(e)
                                    case Overrun => Overrun
                                    case Ok(v, r) =>
                                      if r == |t.source| then Overrun else t.ElementSep(r, sofar + [v])
  {
    assert t.Skip(p) == t.Skip(p + 1) == At(p + 1);
    ParseFrom(t, p + 1);
    hide Text.ValueAt, Text.ElementSep, Text.Skip, Text.Look;
    assert t.Look(p) == Token((), p + 1) by {
      LookHere(t, p, p + 1);
    }
    assert t.Elements(p, sofar) == t.ElementsAt(p + 1, sofar);
  }

  lemma LookHere(t: Text, p: nat, q: nat)
    requires t.Valid() && p <= q < t.End() && t.Skip(p) == At(q)
    ensures t.Look(p) == Token((), q)
  {
  }

  ghost predicate ElementsEnd(t: Text, m: seq<bool>, r: Parse, sofar: seq<Value>, elems: seq<Value>, q: nat)
    requires t.Valid() && q <= t.End()
  {
    StaysLost(t, m, r)
    || (r.Ok? && r == t.Finish(r.value, q)
        && (r.value == Array(sofar + elems) ==> forall e :: e in elems ==> Faithful(e)))
  }

  lemma ElementsAligned(t: Text, m: seq<bool>, p: nat, elems: seq<Value>, sofar: seq<Value>, lf: DoubleFormat)
    requires forall e :: e in elems ==> Tree(e)
    requires Stands(t, m, p, PrintElems(elems, true, lf), ElemMarks(elems, true, lf))
    requires !Inside(m, p + |PrintElems(elems, true, lf)|)
    ensures t.Valid() && p + |PrintElems(elems, true, lf)| <= t.End()
    ensures ElementsEnd(t, m, t.Elements(p, sofar), sofar, elems, p + |PrintElems(elems, true, lf)|)
    decreases elems, 0
  {
    hide Stands, Laid, Lost, Holds, Text.Elements, Text.Look, Text.Finish, Text.ValueAt, Text.ElementSep, Text.ParseAt,
         Print, PrintElems, Marks, ElemMarks, Inside, Tree, Faithful, Keeps, Text.Valid;
    StandsIsHeld(t, m, p, PrintElems(elems, true, lf), ElemMarks(elems, true, lf));
    if elems == [] {
      NoElementStands(t, m, p, lf);
      NoElement(t, p, sofar);
      FinishOrNot(t, m, Array(sofar), p + 2);
    } else {
      var e, rest, q := elems[0], elems[1..], p + 1;
      var r0 := q + |Print(e, lf)|;
      ElementStands(t, m, p, elems, lf);
      ValueAligned(t, m, q, e, lf);
      OnElement(t, p, sofar);
      var rv := t.ValueAt(q);
      if rv.Ok? && rv.end < |t.source| {
        if Lost(t, m, rv.end) {
          ElementSepStaysLost(t, m, rv.end, sofar + [rv.value]);
        } else if rest == [] {
          LastElement(t, p, r0, rv.value, sofar);
          OneIsFaithful(elems, sofar, rv.value);
          FinishOrNot(t, m, Array(sofar + [rv.value]), r0 + 2);
          LastLength(elems, lf);
        } else {
          NextElement(t, p, r0, rv.value, sofar);
          ElementsAligned(t, m, r0 + 1, rest, sofar + [rv.value], lf);
          ElementsKeep(t, r0 + 1, sofar + [rv.value]);
          var r := t.Elements(p, sofar);
          if r.Ok? && !StaysLost(t, m, r) {
            RestIsFaithful(elems, sofar, rv.value, r);
          }
        }
      }
    }
  }

  lemma NoElementStands(t: Text, m: seq<bool>, p: nat, lf: DoubleFormat)
    requires Stands(t, m, p, PrintElems([], true, lf), ElemMarks([], true, lf))
    ensures t.Valid() && p + 2 == p + |PrintElems([], true, lf)| <= t.End()
    ensures t.source[p] == SPACE && t.source[p + 1] == RBRACKET
  {
    StandsIsHeld(t, m, p, [SPACE, RBRACKET], Plain(2));
    assert t.source[p + 0] == SPACE && t.source[p + 1] == RBRACKET;
  }

  lemma LastLength(elems: seq<Value>, lf: DoubleFormat)
    requires |elems| == 1
    ensures |PrintElems(elems, true, lf)| == 3 + |Print(elems[0], lf)|
  {
    hide Print;
  }

  lemma NoElement(t: Text, p: nat, sofar: seq<Value>)
    requires t.Valid() && p + 2 <= t.End() && t.source[p] == SPACE && t.source[p + 1] == RBRACKET
    ensures t.Elements(p, sofar) == t.Finish(Array(sofar), p + 2)
  {
    assert t.Skip(p) == t.Skip(p + 1) == At(p + 1);
    LookHere(t, p, p + 1);
    CloseEmpty(t, p, p + 1);
  }

  lemma FirstElement(elems: seq<Value>, lf: DoubleFormat)
    requires elems != []
    ensures var e, rest := elems[0], elems[1..];
            && PrintElems(elems, true, lf) == [SPACE] + (Print(e, lf) + PrintElems(rest, false, lf))
            && ElemMarks(elems, true, lf) == Plain(1) + (Marks(e, lf) + ElemMarks(rest, false, lf))
  {
    hide Print, Marks;
  }

  // The first element and what follows it, each at its place
  lemma ElementStands(t: Text, m: seq<bool>, p: nat, elems: seq<Value>, lf: DoubleFormat)
    requires elems != [] && Tree(elems[0])
    requires Stands(t, m, p, PrintElems(elems, true, lf), ElemMarks(elems, true, lf))
    ensures var e, rest, q := elems[0], elems[1..], p + 1;
            var r0 := q + |Print(e, lf)|;
            && t.Valid() && r0 + 2 <= t.End() && t.source[p] == SPACE
            && StartsToken(t.source[q]) && t.source[q] != RBRACKET
            && Stands(t, m, q, Print(e, lf), Marks(e, lf)) && !Inside(m, r0) && !IsNumberChar(t.source[r0])
            && if rest == [] then t.source[r0] == SPACE && t.source[r0 + 1] == RBRACKET
               else t.source[r0] == COMMA && p + |PrintElems(elems, true, lf)| == r0 + 1 + |PrintElems(rest, true, lf)|
                    && Stands(t, m, r0 + 1, PrintElems(rest, true, lf), ElemMarks(rest, true, lf))
  {
    hide Stands, Laid, Print, Marks, PrintElems, ElemMarks, Tree, Inside, StartsToken, IsNumberChar;
    FirstElement(elems, lf);
    var e, rest, q := elems[0], elems[1..], p + 1;
    var tail, marks := PrintElems(rest, false, lf), ElemMarks(rest, false, lf);
    StandsSplit(t, m, p, [SPACE], Plain(1), Print(e, lf) + tail, Marks(e, lf) + marks);
    StandsIsHeld(t, m, p, [SPACE], Plain(1));
    assert t.source[p + 0] == SPACE;
    StandsSplit(t, m, q, Print(e, lf), Marks(e, lf), tail, marks);
    TreeStarts(e, lf);
    StandsIsHeld(t, m, q, Print(e, lf), Marks(e, lf));
    assert t.source[q + 0] == Print(e, lf)[0];
    RestStands(t, m, q + |Print(e, lf)|, rest, lf);
  }

  lemma ElementsBegin(elems: seq<Value>, lf: DoubleFormat)
    ensures var s := PrintElems(elems, false, lf);
            |s| >= 2 && !ElemMarks(elems, false, lf)[0]
            && if elems == [] then s == [SPACE, RBRACKET] else s[0] == COMMA
  {
    hide Print, Marks;
  }

  // What follows an element: the bracket, or a comma and the other elements
  lemma RestStands(t: Text, m: seq<bool>, p: nat, rest: seq<Value>, lf: DoubleFormat)
    requires Stands(t, m, p, PrintElems(rest, false, lf), ElemMarks(rest, false, lf))
    ensures t.Valid() && p + 2 <= p + |PrintElems(rest, false, lf)| <= t.End()
    ensures !Inside(m, p) && !IsNumberChar(t.source[p])
    ensures if rest == [] then t.source[p] == SPACE && t.source[p + 1] == RBRACKET
            else t.source[p] == COMMA && |PrintElems(rest, false, lf)| == 1 + |PrintElems(rest, true, lf)|
                 && Stands(t, m, p + 1, PrintElems(rest, true, lf), ElemMarks(rest, true, lf))
  {
    hide Stands, Laid, Inside, PrintElems, ElemMarks;
    ElementsBegin(rest, lf);
    StandsIsHeld(t, m, p, PrintElems(rest, false, lf), ElemMarks(rest, false, lf));
    assert t.source[p + 0] == PrintElems(rest, false, lf)[0] && t.source[p + 1] == PrintElems(rest, false, lf)[1];
    if rest != [] {
      CommaFirst(rest, lf);
      StandsSplit(t, m, p, [COMMA], Plain(1), PrintElems(rest, true, lf), ElemMarks(rest, true, lf));
    }
  }

  lemma CommaFirst(elems: seq<Value>, lf: DoubleFormat)
    requires elems != []
    ensures PrintElems(elems, false, lf) == [COMMA] + PrintElems(elems, true, lf)
    ensures ElemMarks(elems, false, lf) == Plain(1) + ElemMarks(elems, true, lf)
  {
    hide Print, Marks;
    assert Plain(2) == Plain(1) + Plain(1);
  }

  lemma LastElement(t: Text, p: nat, r0: nat, v: Value, sofar: seq<Value>)
    requires t.Valid() && p + 1 <= r0 && r0 + 2 <= t.End() && t.source[r0] == SPACE && t.source[r0 + 1] == RBRACKET
    requires t.Look(p) == Token((), p + 1) && t.source[p + 1] != RBRACKET
    requires t.ParseAt(p + 1).Ok? && t.ParseAt(p + 1) == t.Finish(v, r0)
    ensures t.Elements(p, sofar) == t.Finish(Array(sofar + [v]), r0 + 2)
  {
    assert t.Skip(r0) == t.Skip(r0 + 1) == At(r0 + 1);
    hide Text.Look, Text.Skip, Text.ParseAt, Text.Elements;
    assert t.Finish(v, r0) == Ok(v, r0 + 1);
    OneElement(t, p, p + 1, v, r0 + 1, sofar);
  }

  lemma NextElement(t: Text, p: nat, r0: nat, v: Value, sofar: seq<Value>)
    requires t.Valid() && p + 1 < r0 < t.End() && t.source[r0] == COMMA
    requires t.Look(p) == Token((), p + 1) && t.source[p + 1] != RBRACKET
    requires t.ParseAt(p + 1).Ok? && t.ParseAt(p + 1) == t.Finish(v, r0)
    ensures t.Elements(p, sofar) == t.Elements(r0 + 1, sofar + [v])
  {
    assert t.Skip(r0) == At(r0);
    hide Text.Look, Text.Skip, Text.ParseAt, Text.Elements;
    assert t.Finish(v, r0) == Ok(v, r0);
    OneElement(t, p, p + 1, v, r0, sofar);
  }

  lemma OneIsFaithful(elems: seq<Value>, sofar: seq<Value>, w: Value)
    requires |elems| == 1 && (w == elems[0] ==> Faithful(elems[0]))
    ensures Array(sofar + [w]) == Array(sofar + elems) ==> forall e :: e in elems ==> Faithful(e)
  {
    hide Faithful;
    if sofar + [w] == sofar + elems {
      assert (sofar + [w])[|sofar|] == w && (sofar + elems)[|sofar|] == elems[0];
    }
  }

  lemma RestIsFaithful(elems: seq<Value>, sofar: seq<Value>, w: Value, r: Parse)
    requires elems != [] && (w == elems[0] ==> Faithful(elems[0])) && Keeps(r, sofar + [w]) && r.Ok?
    requires r.value == Array(sofar + [w] + elems[1..]) ==> forall e :: e in elems[1..] ==> Faithful(e)
    ensures r.value == Array(sofar + elems) ==> forall e :: e in elems ==> Faithful(e)
  {
    hide Faithful;
    if r.value == Array(sofar + elems) {
      assert (sofar + [w])[|sofar|] == w && (sofar + elems)[|sofar|] == elems[0];
      assert sofar + [w] + elems[1..] == sofar + elems;
    }
  }

  // ---- objects ----

  ghost predicate AllFaithful(fields: seq<(bytes, Value)>) {
    forall f :: f in fields ==> PlainText(f.0) && Faithful(f.1)
  }

  // As many fields as were printed come out only if no name was read twice.
  ghost predicate Grown(r: seq<(bytes, Value)>, acc: seq<(bytes, Value)>, fields: seq<(bytes, Value)>) {
    && |r| <= |acc| + |fields| && (|r| == |acc| + |fields| ==> acc <= r)
    && (r == acc + fields ==> AllFaithful(fields))
  }

  ghost predicate MembersEnd(t: Text, m: seq<bool>, r: Parse, acc: seq<(bytes, Value)>, fields: seq<(bytes, Value)>,
                             q: nat)
    requires t.Valid() && q <= t.End()
  {
    StaysLost(t, m, r)
    || (r.Ok? && r == t.Finish(r.value, q) && r.value.Object? && Grown(r.value.fields, acc, fields))
  }

  lemma {:induction false} RemoveShrinks(es: seq<(bytes, Value)>, k: bytes)
    ensures |Remove(es, k)| <= |es| && (|Remove(es, k)| == |es| ==> Remove(es, k) == es)
  {
    if es != [] {
      RemoveShrinks(es[1..], k);
    }
  }

  // The first field, read as k and w, and then the others
  lemma GrownByOne(r: seq<(bytes, Value)>, acc: seq<(bytes, Value)>, fields: seq<(bytes, Value)>, k: bytes, w: Value)
    requires fields != [] && Grown(r, Add(acc, k, w), fields[1..])
    requires (k == fields[0].0 ==> PlainText(k)) && (w == fields[0].1 ==> Faithful(w))
    ensures Grown(r, acc, fields)
  {
    hide Faithful, PlainText;
    var next := Add(acc, k, w);
    RemoveShrinks(acc, k);
    assert |next| <= |acc| + 1 && (|next| == |acc| + 1 ==> next == acc + [(k, w)]);
    if r == acc + fields {
      assert next <= r && next[|acc|] == (k, w) && r[|acc|] == fields[0];
      assert r == next + fields[1..];
      assert fields == [fields[0]] + fields[1..];
    }
  }

  lemma NothingGrows(acc: seq<(bytes, Value)>)
    ensures Grown(acc, acc, [])
  {
  }

  // Behind a space: a name, and what becomes of the object with it
  lemma OnName(t: Text, p: nat, acc: seq<(bytes, Value)>)
    requires t.Valid() && p + 1 < t.End() && t.source[p] == SPACE && t.source[p + 1] == DQUOTE
    ensures t.Members(p, acc) == match t.StringBody(p + 2, DQUOTE, [])
                                 case Bad(e) => Err(e)
                                 case Token(s, r) => t.MemberColon(r, CString(s), acc)
  {
    assert t.Skip(p) == t.Skip(p + 1) == At(p + 1);
    LookHere(t, p, p + 1);
    hide Text.Look, Text.Skip, Text.StringBody, Text.MemberColon, CString;
    var l := t.StringBody(p + 2, DQUOTE, []);
    assert t.Members(p, acc) == t.MembersAt(p + 1, acc) == t.MemberName(l, acc);
  }

  lemma OnColon(t: Text, a: nat, name: bytes, acc: seq<(bytes, Value)>)
    requires t.Valid() && a + 2 < t.End() && t.source[a] == COLON && t.source[a + 1] == SPACE
    requires StartsToken(t.source[a + 2])
    ensures t.ParseAt(a + 2) == t.ValueAt(a + 2)
    ensures t.MemberColon(a, name, acc) == match t.ValueAt(a + 2)
                                           case Err(e) => Err(e)
                                           case Overrun => Overrun
                                           case Ok(v, r) =>
                                             if r == |t.source| then Overrun else t.MemberSep(r, Add(acc, name, v))
    ensures t.MemberColon(a, name, acc) == t.MemberValueAt(a + 2, name, acc)
  {
    assert t.Skip(a) == At(a) && t.Skip(a + 1) == t.Skip(a + 2) == At(a + 2);
    LookHere(t, a, a);
    LookHere(t, a + 1, a + 2);
    ParseFrom(t, a + 2);
    hide Text.Look, Text.Skip, Text.ValueAt, Text.ParseAt, Text.MemberSep, Add;
    OneColon(t, a, a, a + 2, name, acc);
  }

  lemma NoFieldStands(t: Text, m: seq<bool>, p: nat, lf: DoubleFormat)
    requires Stands(t, m, p, PrintFields([], true, lf), FieldMarks([], true, lf))
    ensures t.Valid() && p + 2 == p + |PrintFields([], true, lf)| <= t.End()
    ensures t.source[p] == SPACE && t.source[p + 1] == RBRACE
  {
    StandsIsHeld(t, m, p, [SPACE, RBRACE], Plain(2));
    assert t.source[p + 0] == SPACE && t.source[p + 1] == RBRACE;
  }

  lemma LastFieldLength(fields: seq<(bytes, Value)>, lf: DoubleFormat)
    requires |fields| == 1
    ensures |PrintFields(fields, true, lf)| == |PrintName(fields[0].0, true)| + |Print(fields[0].1, lf)| + 2
  {
    hide Print, PrintName;
  }

  lemma NoField(t: Text, p: nat, acc: seq<(bytes, Value)>)
    requires t.Valid() && p + 2 <= t.End() && t.source[p] == SPACE && t.source[p + 1] == RBRACE
    ensures t.Members(p, acc) == t.Finish(Object(acc), p + 2)
  {
    assert t.Skip(p) == t.Skip(p + 1) == At(p + 1);
    LookHere(t, p, p + 1);
    CloseEmpty(t, p, p + 1);
  }

  lemma LastField(t: Text, q: nat, r0: nat, name: bytes, v: Value, acc: seq<(bytes, Value)>)
    requires t.Valid() && q < r0 && r0 + 2 <= t.End() && t.source[r0] == SPACE && t.source[r0 + 1] == RBRACE
    requires t.ParseAt(q).Ok? && t.ParseAt(q) == t.Finish(v, r0)
    ensures t.MemberValueAt(q, name, acc) == t.Finish(Object(Add(acc, name, v)), r0 + 2)
  {
    assert t.Skip(r0) == t.Skip(r0 + 1) == At(r0 + 1);
    hide Text.Look, Text.Skip, Text.ParseAt, Text.MemberValueAt, Add;
    assert t.Finish(v, r0) == Ok(v, r0 + 1);
    OneMember(t, q, name, v, r0 + 1, acc);
  }

  lemma NextField(t: Text, q: nat, r0: nat, name: bytes, v: Value, acc: seq<(bytes, Value)>)
    requires t.Valid() && q < r0 < t.End() && t.source[r0] == COMMA
    requires t.ParseAt(q).Ok? && t.ParseAt(q) == t.Finish(v, r0)
    ensures t.MemberValueAt(q, name, acc) == t.Members(r0 + 1, Add(acc, name, v))
  {
    assert t.Skip(r0) == At(r0);
    hide Text.Look, Text.Skip, Text.ParseAt, Text.MemberValueAt, Add;
    assert t.Finish(v, r0) == Ok(v, r0);
    OneMember(t, q, name, v, r0, acc);
  }

  lemma CommaFirstField(fields: seq<(bytes, Value)>, lf: DoubleFormat)
    requires fields != []
    ensures PrintFields(fields, false, lf) == [COMMA] + PrintFields(fields, true, lf)
    ensures FieldMarks(fields, false, lf) == Plain(1) + FieldMarks(fields, true, lf)
  {
    hide Print, Marks, Escape, Quoted;
    var f := fields[0];
    assert f.1 < f;
    assert PrintName(f.0, false) == [COMMA] + PrintName(f.0, true);
    assert Plain(2) == Plain(1) + Plain(1);
    assert NameMarks(f.0, false) == Plain(1) + NameMarks(f.0, true);
    Reassociate([COMMA], PrintName(f.0, true), Print(f.1, lf) + PrintFields(fields[1..], false, lf));
    Reassociate(Plain(1), NameMarks(f.0, true), Marks(f.1, lf) + FieldMarks(fields[1..], false, lf));
  }

  lemma Reassociate<T>(a: seq<T>, b: seq<T>, c: seq<T>)
    ensures a + b + c == a + (b + c)
  {
  }

  // A name at its place: its quote is at p + 1, and the value follows at q.
  lemma NameStands(t: Text, m: seq<bool>, p: nat, name: bytes)
    requires Stands(t, m, p, PrintName(name, true), NameMarks(name, true))
    ensures var a := p + 1 + |Escape(name)| + 2;
            && t.Valid() && a + 2 == p + |PrintName(name, true)| <= t.End()
            && t.source[p] == SPACE && t.source[p + 1] == DQUOTE && t.source[a] == COLON && t.source[a + 1] == SPACE
            && Stands(t, m, p + 1, [DQUOTE] + (Escape(name) + [DQUOTE]), Quoted(name)) && !Inside(m, a)
  {
    hide Stands, Laid, Inside, Escape, Quoted, PrintName;
    var quoted := [DQUOTE] + (Escape(name) + [DQUOTE]);
    var a := p + 1 + |quoted|;
    NameParts(name, true);
    Reassociate([SPACE], quoted, [COLON, SPACE]);
    Reassociate(Plain(1), Quoted(name), Plain(2));
    StandsSplit(t, m, p, [SPACE], Plain(1), quoted + [COLON, SPACE], Quoted(name) + Plain(2));
    StandsSplit(t, m, p + 1, quoted, Quoted(name), [COLON, SPACE], Plain(2));
    StandsIsHeld(t, m, p, [SPACE], Plain(1));
    StandsIsHeld(t, m, p + 1, quoted, Quoted(name));
    StandsIsHeld(t, m, a, [COLON, SPACE], Plain(2));
    assert t.source[p + 0] == SPACE && t.source[p + 1 + 0] == DQUOTE;
    assert t.source[a + 0] == COLON && t.source[a + 1] == SPACE;
  }

  lemma FieldsBegin(fields: seq<(bytes, Value)>, lf: DoubleFormat)
    ensures var s := PrintFields(fields, false, lf);
            |s| >= 2 && !FieldMarks(fields, false, lf)[0]
            && if fields == [] then s == [SPACE, RBRACE] else s[0] == COMMA
  {
    hide Print, Marks, Escape, Quoted;
  }

  lemma FirstField(fields: seq<(bytes, Value)>, lf: DoubleFormat)
    requires fields != []
    ensures var name, v, rest := fields[0].0, fields[0].1, fields[1..];
            && PrintFields(fields, true, lf) == PrintName(name, true) + (Print(v, lf) + PrintFields(rest, false, lf))
            && FieldMarks(fields, true, lf) == NameMarks(name, true) + (Marks(v, lf) + FieldMarks(rest, false, lf))
  {
    hide Print, Marks, PrintName, NameMarks;
    var f := fields[0];
    assert f.1 < f;
  }

  // The first field and what follows it, each at its place
  lemma FieldStands(t: Text, m: seq<bool>, p: nat, fields: seq<(bytes, Value)>, lf: DoubleFormat)
    requires fields != [] && Tree(fields[0].1)
    requires Stands(t, m, p, PrintFields(fields, true, lf), FieldMarks(fields, true, lf))
    ensures var name, v, rest := fields[0].0, fields[0].1, fields[1..];
            var q := p + |PrintName(name, true)|;
            var r0 := q + |Print(v, lf)|;
            && t.Valid() && r0 + 2 <= t.End() && StartsToken(t.source[q])
            && Stands(t, m, p, PrintName(name, true), NameMarks(name, true))
            && Stands(t, m, q, Print(v, lf), Marks(v, lf)) && !Inside(m, r0) && !IsNumberChar(t.source[r0])
            && if rest == [] then t.source[r0] == SPACE && t.source[r0 + 1] == RBRACE
               else t.source[r0] == COMMA
                    && p + |PrintFields(fields, true, lf)| == r0 + 1 + |PrintFields(rest, true, lf)|
                    && Stands(t, m, r0 + 1, PrintFields(rest, true, lf), FieldMarks(rest, true, lf))
  {
    hide Stands, Laid, Print, Marks, PrintFields, FieldMarks, Tree, Inside, PrintName, NameMarks, StartsToken,
         IsNumberChar;
    FirstField(fields, lf);
    var f, rest := fields[0], fields[1..];
    assert f.1 < f;
    var name, v := f.0, f.1;
    var q := p + |PrintName(name, true)|;
    var tail, marks := PrintFields(rest, false, lf), FieldMarks(rest, false, lf);
    StandsSplit(t, m, p, PrintName(name, true), NameMarks(name, true), Print(v, lf) + tail, Marks(v, lf) + marks);
    StandsSplit(t, m, q, Print(v, lf), Marks(v, lf), tail, marks);
    TreeStarts(v, lf);
    StandsIsHeld(t, m, q, Print(v, lf), Marks(v, lf));
    assert t.source[q + 0] == Print(v, lf)[0];
    OtherFieldsStand(t, m, q + |Print(v, lf)|, rest, lf);
  }

  // What follows a field: the brace, or a comma and the other fields
  lemma OtherFieldsStand(t: Text, m: seq<bool>, p: nat, rest: seq<(bytes, Value)>, lf: DoubleFormat)
    requires Stands(t, m, p, PrintFields(rest, false, lf), FieldMarks(rest, false, lf))
    ensures t.Valid() && p + 2 <= p + |PrintFields(rest, false, lf)| <= t.End()
    ensures !Inside(m, p) && !IsNumberChar(t.source[p])
    ensures if rest == [] then t.source[p] == SPACE && t.source[p + 1] == RBRACE
            else t.source[p] == COMMA && |PrintFields(rest, false, lf)| == 1 + |PrintFields(rest, true, lf)|
                 && Stands(t, m, p + 1, PrintFields(rest, true, lf), FieldMarks(rest, true, lf))
  {
    hide Stands, Laid, Inside, PrintFields, FieldMarks;
    FieldsBegin(rest, lf);
    StandsIsHeld(t, m, p, PrintFields(rest, false, lf), FieldMarks(rest, false, lf));
    assert t.source[p + 0] == PrintFields(rest, false, lf)[0] && t.source[p + 1] == PrintFields(rest, false, lf)[1];
    if rest != [] {
      CommaFirstField(rest, lf);
      StandsSplit(t, m, p, [COMMA], Plain(1), PrintFields(rest, true, lf), FieldMarks(rest, true, lf));
    }
  }

  lemma MembersAligned(t: Text, m: seq<bool>, p: nat, fields: seq<(bytes, Value)>, acc: seq<(bytes, Value)>,
                       lf: DoubleFormat)
    requires forall f :: f in fields ==> NUL !in f.0 && Tree(f.1)
    requires Stands(t, m, p, PrintFields(fields, true, lf), FieldMarks(fields, true, lf))
    requires !Inside(m, p + |PrintFields(fields, true, lf)|)
    ensures t.Valid() && p + |PrintFields(fields, true, lf)| <= t.End()
    ensures MembersEnd(t, m, t.Members(p, acc), acc, fields, p + |PrintFields(fields, true, lf)|)
    decreases fields, 0
  {
    hide Stands, Laid, Lost, Holds, Text.Members, Text.MemberColon, Text.Finish, Text.StringBody, Print, PrintFields,
         Marks, FieldMarks, Inside, PrintName, NameMarks, Escape, CString, Grown, PlainText, Tree, Text.Valid, Quoted;
    StandsIsHeld(t, m, p, PrintFields(fields, true, lf), FieldMarks(fields, true, lf));
    if fields == [] {
      NoFieldStands(t, m, p, lf);
      FinishOrNot(t, m, Object(acc), p + 2);
      NoField(t, p, acc);
      NothingGrows(acc);
    } else {
      var f, rest := fields[0], fields[1..];
      assert f.1 < f;
      FieldStands(t, m, p, fields, lf);
      NameStands(t, m, p, f.0);
      LiteralAligned(t, m, p + 1, f.0);
      OnName(t, p, acc);
      var l := t.StringBody(p + 2, DQUOTE, []);
      if l.Token? {
        if Lost(t, m, l.end) {
          MemberColonStaysLost(t, m, l.end, CString(l.value), acc);
        } else {
          FieldAligned(t, m, p, l.end, fields, CString(l.value), acc, lf);
        }
      }
    }
  }

  // The name was read to its end at a.
  lemma FieldAligned(t: Text, m: seq<bool>, p: nat, a: nat, fields: seq<(bytes, Value)>, name: bytes,
                     acc: seq<(bytes, Value)>, lf: DoubleFormat)
    requires fields != [] && forall f :: f in fields ==> NUL !in f.0 && Tree(f.1)
    requires Stands(t, m, p, PrintFields(fields, true, lf), FieldMarks(fields, true, lf))
    requires !Inside(m, p + |PrintFields(fields, true, lf)|)
    requires a + 2 == p + |PrintName(fields[0].0, true)| && (name == fields[0].0 ==> PlainText(name))
    ensures t.Valid() && p + |PrintFields(fields, true, lf)| <= t.End() && a <= t.End()
    ensures MembersEnd(t, m, t.MemberColon(a, name, acc), acc, fields, p + |PrintFields(fields, true, lf)|)
    decreases fields, 0, 0
  {
    hide Stands, Laid, Lost, Holds, Text.Members, Text.MemberColon, Text.MemberValueAt, Text.Finish, Text.ValueAt,
         Text.MemberSep, Text.ParseAt, Print, PrintFields, Marks, FieldMarks, Inside, PrintName, NameMarks, Escape,
         Grown, Add, Faithful, PlainText, Tree, Text.Valid, Quoted;
    StandsIsHeld(t, m, p, PrintFields(fields, true, lf), FieldMarks(fields, true, lf));
    var f, rest, q := fields[0], fields[1..], a + 2;
    assert f.1 < f;
    FieldStands(t, m, p, fields, lf);
    NameStands(t, m, p, f.0);
    ValueAligned(t, m, q, f.1, lf);
    OnColon(t, a, name, acc);
    var r0, rv := q + |Print(f.1, lf)|, t.ValueAt(q);
    if rv.Ok? && rv.end < |t.source| {
      var next := Add(acc, name, rv.value);
      if Lost(t, m, rv.end) {
        MemberSepStaysLost(t, m, rv.end, next);
      } else if rest == [] {
        LastField(t, q, r0, name, rv.value, acc);
        LastFieldLength(fields, lf);
        FinishOrNot(t, m, Object(next), r0 + 2);
        NothingGrows(next);
        GrownByOne(next, acc, fields, name, rv.value);
      } else {
        NextField(t, q, r0, name, rv.value, acc);
        MembersAligned(t, m, r0 + 1, rest, next, lf);
        var r := t.Members(r0 + 1, next);
        if r.Ok? && r.value.Object? && Grown(r.value.fields, next, rest) {
          GrownByOne(r.value.fields, acc, fields, name, rv.value);
        }
      }
    }
  }

  // ---- the exact condition ----

  ghost predicate ReadsBack(v: Value, lf: DoubleFormat, scanf: Scanf) {
    var t := Text(Print(v, lf) + [NUL], scanf);
    t.Valid() && t.ParseAt(0) == Ok(v, t.End())
  }

  lemma PrintStands(t: Text, v: Value, lf: DoubleFormat)
    requires Tree(v) && t.Valid() && t.source == Print(v, lf) + [NUL]
    ensures Stands(t, Marks(v, lf), 0, Print(v, lf), Marks(v, lf)) && |Print(v, lf)| == t.End()
  {
    PrintIsLaidOut(v, lf);
    hide Print, Marks, Tree;
    var s, m := Print(v, lf), Marks(v, lf);
    assert t.source[0..0 + |s|] == s && m[0..0 + |m|] == m;
    forall p | 0 <= p < t.End() ensures Local(t.source, m, p) {
      assert Local(s, m, p);
    }
  }

  ghost predicate NoBackslash(v: Value) {
    match v
    case String(s) => BACKSLASH !in s
    case Array(elems) => forall e :: e in elems ==> NoBackslash(e)
    case Object(fields) => forall f :: f in fields ==> BACKSLASH !in f.0 && NoBackslash(f.1)
    case _ => true
  }

  lemma {:induction false} FaithfulTrees(v: Value)
    requires Tree(v)
    ensures Faithful(v) <==> NoBackslash(v)
  {
    match v
    case Array(elems) =>
      forall e | e in elems ensures Faithful(e) <==> NoBackslash(e) {
        FaithfulTrees(e);
      }
    case Object(fields) =>
      forall f | f in fields ensures Faithful(f.1) <==> NoBackslash(f.1) {
        assert f.1 < f;
        FaithfulTrees(f.1);
      }
    case _ =>
  }

  // A value is read back exactly if there is no backslash in any of its strings and keys.
  lemma ValuesReadBack(v: Value, lf: DoubleFormat, scanf: Scanf)
    requires Tree(v)
    ensures ReadsBack(v, lf, scanf) <==> NoBackslash(v)
  {
    var t := Text(Print(v, lf) + [NUL], scanf);
    hide Print, Marks, Tree, Faithful, NoBackslash, Text.ParseAt, Text.ValueAt, Text.Finish, Text.Look, Laid, Stands;
    FaithfulTrees(v);
    if Faithful(v) {
      ParsePrint(v, lf, scanf);
    } else if t.Valid() {
      PrintStands(t, v, lf);
      TreeStarts(v, lf);
      ParseFrom(t, 0);
      ValueAligned(t, Marks(v, lf), 0, v, lf);
    }
  }

  // A string is read back exactly if there is no backslash in it.
  lemma StringsReadBack(s: bytes, lf: DoubleFormat, scanf: Scanf)
    requires NUL !in s
    ensures ReadsBack(String(s), lf, scanf) <==> BACKSLASH !in s
  {
    hide ReadsBack;
    ValuesReadBack(String(s), lf, scanf);
  }

  // The strings over an alphabet are all read back exactly if the backslash is not in it.
  lemma AlphabetsReadBack(alphabet: set<byte>, lf: DoubleFormat, scanf: Scanf)
    requires NUL !in alphabet
    ensures (forall s: bytes :: (forall c :: c in s ==> c in alphabet) ==> ReadsBack(String(s), lf, scanf))
            <==> BACKSLASH !in alphabet
  {
    hide ReadsBack;
    forall s: bytes | forall c :: c in s ==> c in alphabet
      ensures ReadsBack(String(s), lf, scanf) <==> BACKSLASH !in s
    {
      StringsReadBack(s, lf, scanf);
    }
    if BACKSLASH in alphabet {
      assert BACKSLASH in [BACKSLASH] && !ReadsBack(String([BACKSLASH]), lf, scanf);
    }
  }

  // What becomes of the simplest one: the text printed for a single backslash has no end.
  lemma BackslashIsNotReadBack(lf: DoubleFormat, scanf: Scanf)
    ensures var t := Text(Print(String([BACKSLASH]), lf) + [NUL], scanf);
            t.Valid() && t.ParseAt(0) == Err(ErrEof)
  {
    var t := Text(Print(String([BACKSLASH]), lf) + [NUL], scanf);
    assert Escape([BACKSLASH]) == [BACKSLASH] + Escape([]);
    assert t.source == [DQUOTE, BACKSLASH, DQUOTE, NUL];
    assert t.Look(0) == Token((), 0);
    assert t.StringBody(3, DQUOTE, [DQUOTE]) == Bad(ErrEof);
    assert t.StringBody(1, DQUOTE, []) == t.StringEscape(2, DQUOTE, []) == t.StringBody(3, DQUOTE, [] + [DQUOTE]);
  }
}
