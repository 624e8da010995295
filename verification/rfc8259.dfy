/** JSON texts as RFC 8259 describes them, and the reading of every one of them.

    A Doc is the derivation of a JSON text: Render writes the text out, white space
    included, and Meaning is the value the standard gives it. Left out of Doc are
    fractions, exponents, the escapes \/ and \f, upper-case hexadecimal digits,
    \u0000 and surrogates, which the parser treats in ways of its own. */
module Rfc8259 {
  import opened Bytes
  import opened OrderedMap
  import opened Json
  import opened Reader

  datatype Char =
    | Plain(b: byte)
    | Short(e: byte)
    | Unicode(hex: bytes)

  datatype Doc =
    | NullDoc
    | BoolDoc(b: bool)
    | NumberDoc(negative: bool, digits: bytes)
    | StringDoc(chars: seq<Char>)
    | ArrayDoc(gap: bytes, items: seq<Item>)      // gap: the inside of an empty array
    | ObjectDoc(inside: bytes, members: seq<Member>)

  datatype Item = Item(before: bytes, doc: Doc, after: bytes)

  datatype Member = Member(before: bytes, key: seq<Char>, afterKey: bytes, afterColon: bytes, doc: Doc, after: bytes)

  // ---- well-formedness ----

  predicate IsWs(s: bytes) {
    forall i :: 0 <= i < |s| ==> s[i] == SPACE || s[i] == TAB || s[i] == LF || s[i] == CR
  }

  predicate WellFormedChar(c: Char) {
    match c
    case Plain(b) => b >= SPACE && b != DQUOTE && b != BACKSLASH
    case Short(e) => e == DQUOTE || e == BACKSLASH || IsControlEscape(e)
    case Unicode(h) =>
      && |h| == 4 && (forall i :: 0 <= i < 4 ==> IsHexChar(h[i]))
      && HexValue(h) != 0 && !(0xD800 <= HexValue(h) < 0xE000)
  }

  predicate WellFormedChars(chars: seq<Char>) {
    forall i :: 0 <= i < |chars| ==> WellFormedChar(chars[i])
  }

  predicate WellFormedNumber(negative: bool, digits: bytes) {
    && digits != []
    && (forall i :: 0 <= i < |digits| ==> IsDigit(digits[i]))
    && (|digits| > 1 ==> digits[0] != DIGIT_0)
    && -0x8000_0000 <= NumberMeaning(negative, digits) < 0x8000_0000
  }

  predicate WellFormed(d: Doc)
    decreases d, 1
  {
    match d
    case NullDoc => true
    case BoolDoc(_) => true
    case NumberDoc(negative, digits) => WellFormedNumber(negative, digits)
    case StringDoc(chars) => WellFormedChars(chars)
    case ArrayDoc(gap, items) => IsWs(gap) && WellFormedItems(items)
    case ObjectDoc(inside, members) => IsWs(inside) && WellFormedMembers(members)
  }

  predicate WellFormedItems(items: seq<Item>)
    decreases items, 0
  {
    items == [] ||
    (IsWs(items[0].before) && WellFormed(items[0].doc) && IsWs(items[0].after) && WellFormedItems(items[1..]))
  }

  predicate WellFormedMembers(members: seq<Member>)
    decreases members, 0
  {
    members == [] ||
    var m := members[0];
    && IsWs(m.before) && WellFormedChars(m.key) && IsWs(m.afterKey) && IsWs(m.afterColon)
    && WellFormed(m.doc) && IsWs(m.after) && WellFormedMembers(members[1..])
  }

  // ---- the text ----

  function RenderChar(c: Char): bytes {
    match c
    case Plain(b) => [b]
    case Short(e) => [BACKSLASH, e]
    case Unicode(h) => [BACKSLASH, LOWER_U] + h
  }

  function RenderChars(chars: seq<Char>): bytes {
    if chars == [] then [] else RenderChar(chars[0]) + RenderChars(chars[1..])
  }

  function RenderString(chars: seq<Char>): bytes {
    [DQUOTE] + (RenderChars(chars) + [DQUOTE])
  }

  function RenderNumber(negative: bool, digits: bytes): bytes {
    (if negative then [MINUS] else []) + digits
  }

  function Render(d: Doc): bytes
    decreases d, 1
  {
    match d
    case NullDoc => NULL_TEXT
    case BoolDoc(b) => if b then TRUE_TEXT else FALSE_TEXT
    case NumberDoc(negative, digits) => RenderNumber(negative, digits)
    case StringDoc(chars) => RenderString(chars)
    case ArrayDoc(gap, items) => [LBRACKET] + (if items == [] then gap + [RBRACKET] else RenderItems(items))
    case ObjectDoc(inside, members) => [LBRACE] + (if members == [] then inside + [RBRACE] else RenderMembers(members))
  }

  // The items and the closing bracket
  function RenderItems(items: seq<Item>): bytes
    requires items != []
    decreases items, 0
  {
    items[0].before + (Render(items[0].doc) + (items[0].after + RenderItemsRest(items[1..])))
  }

  function RenderItemsRest(items: seq<Item>): bytes
    decreases items, 1
  {
    if items == [] then [RBRACKET] else [COMMA] + RenderItems(items)
  }

  // A member up to its value
  function RenderKey(m: Member): bytes {
    m.before + (RenderString(m.key) + (m.afterKey + ([COLON] + m.afterColon)))
  }

  // The members and the closing brace
  function RenderMembers(members: seq<Member>): bytes
    requires members != []
    decreases members, 0
  {
    var m := members[0];
    RenderKey(m) + (Render(m.doc) + (m.after + RenderMembersRest(members[1..])))
  }

  function RenderMembersRest(members: seq<Member>): bytes
    decreases members, 1
  {
    if members == [] then [RBRACE] else [COMMA] + RenderMembers(members)
  }

  // ---- the value ----

  // Section 7: the characters the two-character escapes stand for, and UTF-8 for \u
  function CharMeaning(c: Char): bytes
    requires WellFormedChar(c)
  {
    match c
    case Plain(b) => [b]
    case Short(e) =>
      [if e == LOWER_B then 0x08 else if e == LOWER_N then 0x0A
       else if e == LOWER_R then 0x0D else if e == LOWER_T then 0x09 else e]
    case Unicode(h) => Utf8(HexValue(h))
  }

  predicate IsTail(b: byte) {
    0x80 <= b < 0xC0
  }

  // Section 3 of RFC 3629, for up to three bytes: what they encode. A number has no
  // other encoding than the shortest.
  function Decode(s: bytes): Option<int> {
    if |s| == 1 && s[0] < 0x80 then Some(s[0] as int)
    else if |s| == 2 && 0xC0 <= s[0] < 0xE0 && IsTail(s[1]) then
      Shortest(0x80, (s[0] as int - 0xC0) * 0x40 + (s[1] as int - 0x80))
    else if |s| == 3 && 0xE0 <= s[0] < 0xF0 && IsTail(s[1]) && IsTail(s[2]) then
      Shortest(0x800, ((s[0] as int - 0xE0) * 0x40 + (s[1] as int - 0x80)) * 0x40 + (s[2] as int - 0x80))
    else None
  }

  function Shortest(least: int, u: int): Option<int> {
    if u < least then None else Some(u)
  }

  lemma SixBits(high: int, low: int)
    requires 0 <= low < 0x40
    ensures (high * 0x40 + low) / 0x40 == high && (high * 0x40 + low) % 0x40 == low
  {
  }

  // Utf8 is the encoding of its number, and nothing else is. (A surrogate, which has none by
  // the RFC, is encoded like any other number.)
  lemma Utf8IsUnique(u: int, s: bytes)
    requires 0 <= u < 0x1_0000
    ensures Utf8(u) == s <==> Decode(s) == Some(u)
  {
    if Decode(s) == Some(u) {
      if |s| == 2 {
        SixBits(s[0] as int - 0xC0, s[1] as int - 0x80);
      } else if |s| == 3 {
        SixBits((s[0] as int - 0xE0) * 0x40 + (s[1] as int - 0x80), s[2] as int - 0x80);
        SixBits(s[0] as int - 0xE0, s[1] as int - 0x80);
        assert u / 0x1000 == u / 0x40 / 0x40;
      }
    } else {
      assert u / 0x1000 == u / 0x40 / 0x40;
    }
  }

  lemma UnicodeMeaning(h: bytes, s: bytes)
    requires WellFormedChar(Unicode(h))
    ensures CharMeaning(Unicode(h)) == s <==> Decode(s) == Some(HexValue(h))
  {
    hide HexValue, Utf8;
    Utf8IsUnique(HexValue(h), s);
  }

  function CharsMeaning(chars: seq<Char>): bytes
    requires WellFormedChars(chars)
  {
    if chars == [] then [] else CharMeaning(chars[0]) + CharsMeaning(chars[1..])
  }

  function NumberMeaning(negative: bool, digits: bytes): int
    requires forall i :: 0 <= i < |digits| ==> IsDigit(digits[i])
  {
    var n: int := Decimal(digits);
    if negative then -n else n
  }

  function Meaning(d: Doc): Value
    requires WellFormed(d)
    decreases d, 1
  {
    match d
    case NullDoc => Null
    case BoolDoc(b) => Bool(b)
    case NumberDoc(negative, digits) => Int(NumberMeaning(negative, digits))
    case StringDoc(chars) => String(CharsMeaning(chars))
    case ArrayDoc(_, items) => Array(ItemsMeaning(items))
    case ObjectDoc(_, members) => Object(MembersMeaning(members, []))
  }

  function ItemsMeaning(items: seq<Item>): seq<Value>
    requires WellFormedItems(items)
    decreases items, 0
  {
    if items == [] then [] else [Meaning(items[0].doc)] + ItemsMeaning(items[1..])
  }

  // The last of several members with one name wins.
  function MembersMeaning(members: seq<Member>, sofar: seq<(bytes, Value)>): seq<(bytes, Value)>
    requires WellFormedMembers(members)
    decreases members, 0
  {
    if members == [] then sofar
    else
      var m := members[0];
      MembersMeaning(members[1..], Add(sofar, CharsMeaning(m.key), Meaning(m.doc)))
  }

  // ---- reading a text piece by piece ----

  ghost predicate Holds(t: Text, p: nat, s: bytes) {
    p + |s| < |t.source| && t.source[p..p + |s|] == s
  }

  lemma HoldsSplit(t: Text, p: nat, a: bytes, b: bytes)
    requires Holds(t, p, a + b)
    ensures Holds(t, p, a) && Holds(t, p + |a|, b)
    ensures p + |a| + |b| < |t.source|
  {
    var s := t.source[p..p + |a + b|];
    assert s[..|a|] == a && s[|a|..] == b;
    assert t.source[p..p + |a|] == s[..|a|];
    assert t.source[p + |a|..p + |a| + |b|] == s[|a|..];
  }

  lemma HoldsSplit3(t: Text, p: nat, a: bytes, b: bytes, c: bytes)
    requires Holds(t, p, a + (b + c))
    ensures Holds(t, p, a) && Holds(t, p + |a|, b) && Holds(t, p + |a| + |b|, c)
    ensures p + |a| + |b| + |c| < |t.source|
  {
    hide Holds;
    HoldsSplit(t, p, a, b + c);
    HoldsSplit(t, p + |a|, b, c);
  }

  lemma HoldsSplit4(t: Text, p: nat, a: bytes, b: bytes, c: bytes, d: bytes)
    requires Holds(t, p, a + (b + (c + d)))
    ensures Holds(t, p, a) && Holds(t, p + |a|, b) && Holds(t, p + |a| + |b|, c) && Holds(t, p + |a| + |b| + |c|, d)
    ensures p + |a| + |b| + |c| + |d| < |t.source|
  {
    hide Holds;
    HoldsSplit(t, p, a, b + (c + d));
    HoldsSplit3(t, p + |a|, b, c, d);
  }

  lemma HoldsAt(t: Text, p: nat, s: bytes, i: nat)
    requires Holds(t, p, s) && i < |s|
    ensures p + i < |t.source| - 1 && t.source[p + i] == s[i]
  {
    assert t.source[p..p + |s|][i] == s[i];
  }

  // A character that ends white space: it starts a token.
  predicate StartsToken(c: byte) {
    !IsSpace(c) && c != SLASH && c != NUL
  }

  lemma {:induction false} SkipWs(t: Text, p: nat, ws: bytes)
    requires t.Valid()
    requires Holds(t, p, ws) && IsWs(ws)
    ensures t.Skip(p) == t.Skip(p + |ws|)
    decreases |ws|
  {
    if ws != [] {
      HoldsAt(t, p, ws, 0);
      assert ws == [ws[0]] + ws[1..];
      HoldsSplit(t, p, [ws[0]], ws[1..]);
      SkipWs(t, p + 1, ws[1..]);
    }
  }

  lemma LookPastWs(t: Text, p: nat, ws: bytes)
    requires t.Valid()
    requires Holds(t, p, ws) && IsWs(ws) && p + |ws| < t.End() && StartsToken(t.source[p + |ws|])
    ensures t.Look(p) == Token((), p + |ws|) && t.Skip(p) == At(p + |ws|)
  {
    SkipWs(t, p, ws);
  }

  lemma {:induction false} NumberEndIs(t: Text, p: nat, q: nat)
    requires t.Valid() && p <= q <= t.End() && !IsNumberChar(t.source[q])
    requires forall i :: p <= i < q ==> IsNumberChar(t.source[i])
    ensures t.NumberEnd(p) == q
    decreases q - p
  {
    if p < q {
      NumberEndIs(t, p + 1, q);
    }
  }

  lemma {:induction false} DigitRunOfDigits(s: bytes)
    requires forall i :: 0 <= i < |s| ==> IsDigit(s[i])
    ensures DigitRun(s) == s
  {
    if s != [] {
      DigitRunOfDigits(s[1..]);
    }
  }

  lemma ScanNumber(negative: bool, digits: bytes)
    requires WellFormedNumber(negative, digits)
    ensures ScanInt(RenderNumber(negative, digits)) == Some(NumberMeaning(negative, digits))
  {
    hide Decimal, DigitRun;
    DigitRunOfDigits(digits);
    var s := RenderNumber(negative, digits);
    if negative {
      assert s[1..] == digits;
    } else {
      assert s == digits;
    }
  }

  lemma ReadNumber(t: Text, p: nat, negative: bool, digits: bytes)
    requires t.Valid()
    requires WellFormedNumber(negative, digits)
    requires var s := RenderNumber(negative, digits);
             Holds(t, p, s) && !IsNumberChar(t.source[p + |s|])
    ensures var s := RenderNumber(negative, digits);
            t.ValueAt(p) == t.Finish(Int(NumberMeaning(negative, digits)), p + |s|)
  {
    hide Text.Finish, Text.Members, Text.Elements, Text.Keyword, Text.StringBody, ScanInt, NumberMeaning;
    var s := RenderNumber(negative, digits);
    forall i | 0 <= i < |s|
      ensures IsNumberChar(t.source[p + i]) && t.source[p + i] == s[i] && s[i] != DOT && s[i] != LOWER_E
    {
      HoldsAt(t, p, s, i);
      assert s[i] == MINUS || s[i] in digits;
    }
    forall i | p + 1 <= i < p + |s| ensures IsNumberChar(t.source[i]) {
      assert IsNumberChar(t.source[p + (i - p)]);
    }
    NumberEndIs(t, p + 1, p + |s|);
    ScanNumber(negative, digits);
    assert t.source[p] == s[0];
  }

  lemma {:induction false} ReadChars(t: Text, p: nat, chars: seq<Char>, sofar: bytes)
    requires t.Valid()
    requires WellFormedChars(chars) && Holds(t, p, RenderChars(chars))
    ensures t.StringBody(p, DQUOTE, sofar)
         == t.StringBody(p + |RenderChars(chars)|, DQUOTE, sofar + CharsMeaning(chars))
    decreases |chars|
  {
    hide Text.StringBody, Holds, RenderChar, CharMeaning, WellFormedChar;
    if chars == [] {
      assert sofar + [] == sofar;
    } else {
      var c, rest := chars[0], chars[1..];
      HoldsSplit(t, p, RenderChar(c), RenderChars(rest));
      ReadChar(t, p, c, sofar);
      ReadChars(t, p + |RenderChar(c)|, rest, sofar + CharMeaning(c));
      assert sofar + CharMeaning(c) + CharsMeaning(rest) == sofar + CharsMeaning(chars);
    }
  }

  lemma ReadChar(t: Text, p: nat, c: Char, sofar: bytes)
    requires t.Valid()
    requires WellFormedChar(c) && Holds(t, p, RenderChar(c))
    ensures t.StringBody(p, DQUOTE, sofar)
         == t.StringBody(p + |RenderChar(c)|, DQUOTE, sofar + CharMeaning(c))
  {
    hide Holds, Utf8, HexValue;
    HoldsAt(t, p, RenderChar(c), 0);
    if !c.Plain? {
      HoldsAt(t, p, RenderChar(c), 1);
      assert t.StringBody(p, DQUOTE, sofar) == t.StringEscape(p + 1, DQUOTE, sofar);
      if c.Unicode? {
        HoldsSplit(t, p, [BACKSLASH, LOWER_U], c.hex);
        ReadUnicode(t, p + 2, c.hex, sofar);
      }
    }
  }

  lemma ReadUnicode(t: Text, p: nat, h: bytes, sofar: bytes)
    requires t.Valid()
    requires |h| == 4 && (forall i :: 0 <= i < 4 ==> IsHexChar(h[i])) && Holds(t, p, h)
    ensures t.StringUnicode(p, 0, DQUOTE, sofar) == t.StringBody(p + 4, DQUOTE, sofar + Utf8(HexValue(h)))
  {
    hide Text.StringBody, Utf8, HexValue;
    forall i | 0 <= i < 4 ensures t.source[p + i] == h[i] {
      HoldsAt(t, p, h, i);
    }
    assert forall i :: p <= i < p + 4 ==> t.source[i] == h[i - p];
    assert t.source[p + 0] == h[0];
    assert t.StringUnicode(p, 0, DQUOTE, sofar) == t.StringUnicode(p, 1, DQUOTE, sofar);
    assert t.StringUnicode(p, 1, DQUOTE, sofar) == t.StringUnicode(p, 2, DQUOTE, sofar);
    assert t.StringUnicode(p, 2, DQUOTE, sofar) == t.StringUnicode(p, 3, DQUOTE, sofar);
    assert t.StringUnicode(p, 3, DQUOTE, sofar) == t.StringUnicode(p, 4, DQUOTE, sofar);
  }

  lemma {:induction false} MeaningIsNulFree(chars: seq<Char>)
    requires WellFormedChars(chars)
    ensures NUL !in CharsMeaning(chars)
  {
    if chars != [] {
      MeaningIsNulFree(chars[1..]);
    }
  }

  lemma ReadString(t: Text, p: nat, chars: seq<Char>)
    requires t.Valid()
    requires WellFormedChars(chars) && Holds(t, p, RenderChars(chars))
    requires t.source[p + |RenderChars(chars)|] == DQUOTE
    ensures var q := p + |RenderChars(chars)|;
            t.StringBody(p, DQUOTE, []) == Token(CharsMeaning(chars), q + 1)
    ensures CString(CharsMeaning(chars)) == CharsMeaning(chars)
  {
    hide Text.StringBody, RenderChars, CharsMeaning, CString;
    ReadChars(t, p, chars, []);
    StringEnds(t, p + |RenderChars(chars)|, [] + CharsMeaning(chars));
    MeaningIsNulFree(chars);
    CStringOfNulFree(CharsMeaning(chars));
    EmptyPrefix(CharsMeaning(chars));
  }

  lemma StringEnds(t: Text, p: nat, sofar: bytes)
    requires t.Valid() && p <= t.End() && t.source[p] == DQUOTE
    ensures t.StringBody(p, DQUOTE, sofar) == Token(sofar, p + 1)
  {
  }

  lemma {:induction false} ReadKeyword(t: Text, p: nat, word: bytes, k: nat, mismatch: Error)
    requires t.Valid()
    requires Holds(t, p, word) && k <= |word| && forall i :: 0 <= i < |word| ==> Lower(word[i]) == word[i] != NUL
    ensures t.Keyword(p, word, k, mismatch) == Token((), p + |word|)
    decreases |word| - k
  {
    if k < |word| {
      HoldsAt(t, p, word, k);
      ReadKeyword(t, p, word, k + 1, mismatch);
    }
  }

  // ---- single steps of the recursive reading ----

  lemma ParseFrom(t: Text, p: nat)
    requires t.Valid() && p < t.End() && StartsToken(t.source[p])
    ensures t.Look(p) == Token((), p) && t.ParseAt(p) == t.ValueAt(p)
  {
  }

  lemma FinishBefore(t: Text, v: Value, p: nat, ws: bytes)
    requires t.Valid()
    requires Holds(t, p, ws) && IsWs(ws)
    requires var q := p + |ws|;
             q == t.End() || StartsToken(t.source[q])
    ensures t.Finish(v, p) == Ok(v, p + |ws|)
  {
    SkipWs(t, p, ws);
  }

  lemma OpenArray(t: Text, p: nat)
    requires t.Valid() && p < t.End() && t.source[p] == LBRACKET
    ensures t.ValueAt(p) == t.Elements(p + 1, [])
  {
    hide Text.Elements;
  }

  lemma OpenObject(t: Text, p: nat)
    requires t.Valid() && p < t.End() && t.source[p] == LBRACE
    ensures t.ValueAt(p) == t.Members(p + 1, [])
  {
    hide Text.Members;
  }

  lemma CloseEmpty(t: Text, p: nat, q: nat)
    requires t.Valid() && p <= q < t.End() && t.Look(p) == Token((), q)
    ensures t.source[q] == RBRACKET ==> forall es :: t.Elements(p, es) == t.Finish(Array(es), q + 1)
    ensures t.source[q] == RBRACE ==> forall fs :: t.Members(p, fs) == t.Finish(Object(fs), q + 1)
  {
    hide Text.Finish, Text.Look;
  }

  lemma OneElement(t: Text, p: nat, q: nat, v: Value, r: nat, sofar: seq<Value>)
    requires t.Valid() && p <= q < r < t.End() && t.Look(p) == Token((), q) && t.source[q] != RBRACKET
    requires t.ParseAt(q) == Ok(v, r) && (t.source[r] == COMMA || t.source[r] == RBRACKET)
    ensures t.Elements(p, sofar) == if t.source[r] == COMMA then t.Elements(r + 1, sofar + [v])
                                    else t.Finish(Array(sofar + [v]), r + 1)
  {
    ParseFrom(t, r);
    hide Text.Finish, Text.Look, Text.ParseAt, Text.ElementSep;
    assert t.Elements(p, sofar) == t.ElementsAt(q, sofar) == t.ElementSep(r, sofar + [v]);
    AfterElement(t, r, sofar + [v]);
  }

  lemma AfterElement(t: Text, r: nat, sofar: seq<Value>)
    requires t.Valid() && r < t.End() && t.Look(r) == Token((), r)
    requires t.source[r] == COMMA || t.source[r] == RBRACKET
    ensures t.ElementSep(r, sofar) == if t.source[r] == COMMA then t.Elements(r + 1, sofar)
                                      else t.Finish(Array(sofar), r + 1)
  {
    hide Text.Finish, Text.Look, Text.Elements;
  }

  lemma OneName(t: Text, p: nat, q: nat, name: bytes, c: nat, sofar: seq<(bytes, Value)>)
    requires t.Valid() && p <= q < c <= t.End() && t.Look(p) == Token((), q) && t.source[q] == DQUOTE
    requires t.StringBody(q + 1, DQUOTE, []) == Token(name, c) && CString(name) == name
    ensures t.Members(p, sofar) == t.MemberColon(c, name, sofar)
  {
    hide Text.Look, Text.StringBody, CString, Text.MemberColon;
    assert t.Members(p, sofar) == t.MembersAt(q, sofar) == t.MemberName(Token(name, c), sofar);
  }

  lemma OneColon(t: Text, c: nat, d: nat, q: nat, name: bytes, sofar: seq<(bytes, Value)>)
    requires t.Valid() && c <= d < q < t.End() && t.Look(c) == Token((), d) && t.source[d] == COLON
    requires t.Look(d + 1) == Token((), q)
    ensures t.MemberColon(c, name, sofar) == t.MemberValueAt(q, name, sofar)
  {
    hide Text.Look, Text.MemberValueAt;
    assert t.MemberColon(c, name, sofar) == t.MemberColonAt(d, name, sofar) == t.MemberValue(d + 1, name, sofar);
  }

  lemma OneMember(t: Text, q: nat, name: bytes, v: Value, r: nat, sofar: seq<(bytes, Value)>)
    requires t.Valid() && q < r < t.End() && t.ParseAt(q) == Ok(v, r)
    requires t.source[r] == COMMA || t.source[r] == RBRACE
    ensures t.MemberValueAt(q, name, sofar) ==
            if t.source[r] == COMMA then t.Members(r + 1, Add(sofar, name, v))
            else t.Finish(Object(Add(sofar, name, v)), r + 1)
  {
    ParseFrom(t, r);
    hide Text.Finish, Text.Look, Text.ParseAt, Text.MemberSep, Add;
    assert t.MemberValueAt(q, name, sofar) == t.MemberSep(r, Add(sofar, name, v));
    AfterMember(t, r, Add(sofar, name, v));
  }

  lemma AfterMember(t: Text, r: nat, sofar: seq<(bytes, Value)>)
    requires t.Valid() && r < t.End() && t.Look(r) == Token((), r)
    requires t.source[r] == COMMA || t.source[r] == RBRACE
    ensures t.MemberSep(r, sofar) == if t.source[r] == COMMA then t.Members(r + 1, sofar)
                                     else t.Finish(Object(sofar), r + 1)
  {
    hide Text.Finish, Text.Look, Text.Members;
  }

  lemma ReadWord(t: Text, p: nat, d: Doc)
    requires t.Valid()
    requires (d.NullDoc? || d.BoolDoc?) && Holds(t, p, Render(d))
    ensures t.ValueAt(p) == t.Finish(Meaning(d), p + |Render(d)|)
  {
    hide Text.Finish, Text.Members, Text.Elements, Text.NumberEnd, Text.StringBody, Text.Keyword;
    HoldsAt(t, p, Render(d), 0);
    match d
    case NullDoc => ReadKeyword(t, p, NULL_TEXT, 0, ErrNull);
    case BoolDoc(b) => ReadKeyword(t, p, if b then TRUE_TEXT else FALSE_TEXT, 0, ErrBoolean);
  }

  lemma OpenString(t: Text, p: nat, s: bytes, q: nat)
    requires t.Valid() && p < t.End() && t.source[p] == DQUOTE && q <= t.End()
    requires t.StringBody(p + 1, DQUOTE, []) == Token(s, q) && CString(s) == s
    ensures t.ValueAt(p) == t.Finish(String(s), q)
  {
    hide Text.Finish, Text.StringBody, CString;
  }

  // The quotes and what is between them
  lemma StringParts(t: Text, p: nat, chars: seq<Char>)
    requires Holds(t, p, RenderString(chars))
    ensures var q := p + 1 + |RenderChars(chars)|;
            && q + 1 < |t.source|
            && t.source[p] == t.source[q] == DQUOTE && Holds(t, p + 1, RenderChars(chars))
  {
    hide RenderChars, Holds;
    HoldsSplit(t, p, [DQUOTE], RenderChars(chars) + [DQUOTE]);
    HoldsAt(t, p, [DQUOTE], 0);
    HoldsSplit(t, p + 1, RenderChars(chars), [DQUOTE]);
    HoldsAt(t, p + 1 + |RenderChars(chars)|, [DQUOTE], 0);
  }

  lemma ReadQuoted(t: Text, p: nat, chars: seq<Char>)
    requires t.Valid()
    requires WellFormedChars(chars) && Holds(t, p, RenderString(chars))
    ensures t.ValueAt(p) == t.Finish(String(CharsMeaning(chars)), p + |RenderString(chars)|)
  {
    hide Text.ValueAt, Text.Finish, Text.StringBody, CString, CharsMeaning, RenderChars, Holds;
    StringParts(t, p, chars);
    ReadString(t, p + 1, chars);
    OpenString(t, p, CharsMeaning(chars), p + 2 + |RenderChars(chars)|);
  }

  // ---- the theorem ----

  lemma RenderStarts(d: Doc)
    requires WellFormed(d)
    ensures Render(d) != [] && StartsToken(Render(d)[0]) && Render(d)[0] != RBRACKET
  {
  }

  lemma ReadValue(t: Text, p: nat, d: Doc)
    requires t.Valid()
    requires WellFormed(d) && Holds(t, p, Render(d)) && !IsNumberChar(t.source[p + |Render(d)|])
    ensures t.ValueAt(p) == t.Finish(Meaning(d), p + |Render(d)|)
    decreases d, 1
  {
    hide Text.ValueAt, Text.Finish, Text.Look, Text.Skip, Text.Elements, Text.Members,
         NumberMeaning, RenderNumber, CharsMeaning, RenderChars, RenderItems, RenderMembers, Holds,
         ItemsMeaning, MembersMeaning, WellFormedItems, WellFormedMembers;
    match d
    case NullDoc => ReadWord(t, p, d);
    case BoolDoc(b) => ReadWord(t, p, d);
    case NumberDoc(negative, digits) => ReadNumber(t, p, negative, digits);
    case StringDoc(chars) => ReadQuoted(t, p, chars);
    case ArrayDoc(gap, items) => ReadArray(t, p, gap, items);
    case ObjectDoc(inside, members) => ReadObject(t, p, inside, members);
  }

  lemma ReadArray(t: Text, p: nat, gap: bytes, items: seq<Item>)
    requires t.Valid()
    requires IsWs(gap) && WellFormedItems(items)
    requires Holds(t, p, [LBRACKET] + (if items == [] then gap + [RBRACKET] else RenderItems(items)))
    ensures var inner := if items == [] then gap + [RBRACKET] else RenderItems(items);
            t.ValueAt(p) == t.Finish(Array(ItemsMeaning(items)), p + 1 + |inner|)
    decreases items, 4
  {
    hide Text.ValueAt, Text.Finish, Text.Look, Text.Skip, Text.Elements, Text.Valid, RenderItems, Holds, IsWs,
         WellFormedItems;
    if items == [] {
      var q := p + 1 + |gap|;
      HoldsSplit3(t, p, [LBRACKET], gap, [RBRACKET]);
      HoldsAt(t, q, [RBRACKET], 0);
      LookPastWs(t, p + 1, gap);
      CloseEmpty(t, p + 1, q);
    } else {
      HoldsSplit(t, p, [LBRACKET], RenderItems(items));
      ReadItems(t, p + 1, items, []);
      EmptyPrefix(ItemsMeaning(items));
    }
    HoldsAt(t, p, [LBRACKET], 0);
    OpenArray(t, p);
  }

  lemma EmptyPrefix<T>(s: seq<T>)
    ensures [] + s == s
  {
  }

  lemma ReadObject(t: Text, p: nat, inside: bytes, members: seq<Member>)
    requires t.Valid()
    requires IsWs(inside) && WellFormedMembers(members)
    requires Holds(t, p, [LBRACE] + (if members == [] then inside + [RBRACE] else RenderMembers(members)))
    ensures var inner := if members == [] then inside + [RBRACE] else RenderMembers(members);
            t.ValueAt(p) == t.Finish(Object(MembersMeaning(members, [])), p + 1 + |inner|)
    decreases members, 4
  {
    hide Text.ValueAt, Text.Finish, Text.Look, Text.Skip, Text.Members, Text.Valid, RenderMembers, Holds, IsWs,
         WellFormedMembers;
    if members == [] {
      var q := p + 1 + |inside|;
      HoldsSplit3(t, p, [LBRACE], inside, [RBRACE]);
      HoldsAt(t, q, [RBRACE], 0);
      LookPastWs(t, p + 1, inside);
      CloseEmpty(t, p + 1, q);
    } else {
      HoldsSplit(t, p, [LBRACE], RenderMembers(members));
      ReadMembers(t, p + 1, members, []);
    }
    HoldsAt(t, p, [LBRACE], 0);
    OpenObject(t, p);
  }

  // A value and the white space behind it, in front of the token that follows
  lemma ReadNested(t: Text, p: nat, d: Doc, after: bytes)
    requires t.Valid()
    requires WellFormed(d) && IsWs(after) && Holds(t, p, Render(d)) && Holds(t, p + |Render(d)|, after)
    requires var q := p + |Render(d)| + |after|;
             q < t.End() && StartsToken(t.source[q]) && !IsNumberChar(t.source[q])
    ensures var q := p + |Render(d)| + |after|;
            t.ParseAt(p) == Ok(Meaning(d), q)
    decreases d, 2
  {
    hide Text.ParseAt, Text.ValueAt, Text.Finish, Text.Look, Text.Skip, Holds, Meaning, Render;
    RenderStarts(d);
    HoldsAt(t, p, Render(d), 0);
    if after != [] {
      HoldsAt(t, p + |Render(d)|, after, 0);
    }
    ReadValue(t, p, d);
    FinishBefore(t, Meaning(d), p + |Render(d)|, after);
    ParseFrom(t, p);
  }

  lemma ReadItems(t: Text, p: nat, items: seq<Item>, sofar: seq<Value>)
    requires t.Valid()
    requires items != [] && WellFormedItems(items) && Holds(t, p, RenderItems(items))
    ensures t.Elements(p, sofar) == t.Finish(Array(sofar + ItemsMeaning(items)), p + |RenderItems(items)|)
    decreases items, 3
  {
    hide Text.ParseAt, Text.Elements, Text.Finish, Text.Look, Text.Skip, Text.Valid, Holds, Meaning, Render,
         RenderItems, ItemsMeaning, WellFormed, IsWs;
    var i, rest := items[0], items[1..];
    var q, r := FindItem(t, p, items);
    ReadNested(t, q, i.doc, i.after);
    OneElement(t, p, q, Meaning(i.doc), r, sofar);
    ItemsMeaningStep(items, sofar);
    if rest != [] {
      HoldsSplit(t, r, [COMMA], RenderItems(rest));
      ReadItems(t, r + 1, rest, sofar + [Meaning(i.doc)]);
    }
  }

  lemma ItemsMeaningStep(items: seq<Item>, sofar: seq<Value>)
    requires items != [] && WellFormedItems(items)
    ensures sofar + ItemsMeaning(items) == sofar + [Meaning(items[0].doc)] + ItemsMeaning(items[1..])
    ensures items[1..] == [] ==> sofar + ItemsMeaning(items) == sofar + [Meaning(items[0].doc)]
  {
    hide Meaning, WellFormed, IsWs;
    var v, rest := Meaning(items[0].doc), ItemsMeaning(items[1..]);
    assert ItemsMeaning(items) == [v] + rest;
    AppendCons(sofar, v, rest);
    assert items[1..] == [] ==> rest == [];
  }

  lemma AppendCons<T>(s: seq<T>, x: T, rest: seq<T>)
    ensures s + ([x] + rest) == s + [x] + rest
    ensures rest == [] ==> s + ([x] + rest) == s + [x]
  {
  }

  // The first item's value starts at q; what follows the item starts at r.
  lemma FindItem(t: Text, p: nat, items: seq<Item>) returns (q: nat, r: nat)
    requires t.Valid()
    requires items != [] && WellFormedItems(items) && Holds(t, p, RenderItems(items))
    ensures var i, tail := items[0], RenderItemsRest(items[1..]);
            && p <= q < r < t.End()
            && t.Look(p) == Token((), q) && t.source[q] != RBRACKET
            && r == q + |Render(i.doc)| + |i.after|
            && Holds(t, q, Render(i.doc)) && Holds(t, q + |Render(i.doc)|, i.after) && Holds(t, r, tail)
            && r + |tail| == p + |RenderItems(items)|
            && t.source[r] == tail[0]
  {
    hide Text.Look, Text.Skip, Text.Valid, Holds, Render, WellFormed, IsWs;
    var i, tail := items[0], RenderItemsRest(items[1..]);
    q := p + |i.before|;
    r := q + |Render(i.doc)| + |i.after|;
    HoldsSplit4(t, p, i.before, Render(i.doc), i.after, tail);
    RenderStarts(i.doc);
    HoldsAt(t, q, Render(i.doc), 0);
    HoldsAt(t, r, tail, 0);
    LookPastWs(t, p, i.before);
  }

  lemma ReadMembers(t: Text, p: nat, members: seq<Member>, sofar: seq<(bytes, Value)>)
    requires t.Valid()
    requires members != [] && WellFormedMembers(members) && Holds(t, p, RenderMembers(members))
    ensures t.Members(p, sofar) == t.Finish(Object(MembersMeaning(members, sofar)), p + |RenderMembers(members)|)
    decreases members, 3
  {
    hide Text.ParseAt, Text.Members, Text.MemberValueAt, Text.Finish, Text.Look, Text.Skip, Text.Valid, Holds, Meaning,
         Render, RenderMembers, WellFormed, CharsMeaning, RenderChars, Add;
    var m, rest := members[0], members[1..];
    var q, r := FindMember(t, p, members);
    var name, v := CharsMeaning(m.key), Meaning(m.doc);
    FindKey(t, p, m, q, sofar);
    ReadNested(t, q, m.doc, m.after);
    OneMember(t, q, name, v, r, sofar);
    if rest != [] {
      HoldsSplit(t, r, [COMMA], RenderMembers(rest));
      ReadMembers(t, r + 1, rest, Add(sofar, name, v));
    }
  }

  // The first member's value starts at q; what follows the member starts at r.
  lemma FindMember(t: Text, p: nat, members: seq<Member>) returns (q: nat, r: nat)
    requires t.Valid()
    requires members != [] && WellFormedMembers(members) && Holds(t, p, RenderMembers(members))
    ensures var m, tail := members[0], RenderMembersRest(members[1..]);
            && q == p + |RenderKey(m)| && q < r < t.End()
            && StartsToken(t.source[q])
            && r == q + |Render(m.doc)| + |m.after|
            && Holds(t, p, RenderKey(m))
            && Holds(t, q, Render(m.doc)) && Holds(t, q + |Render(m.doc)|, m.after) && Holds(t, r, tail)
            && r + |tail| == p + |RenderMembers(members)|
            && t.source[r] == tail[0]
  {
    hide Text.Valid, Holds, Render, WellFormed, IsWs, RenderKey;
    var m, tail := members[0], RenderMembersRest(members[1..]);
    q := p + |RenderKey(m)|;
    r := q + |Render(m.doc)| + |m.after|;
    HoldsSplit4(t, p, RenderKey(m), Render(m.doc), m.after, tail);
    RenderStarts(m.doc);
    HoldsAt(t, q, Render(m.doc), 0);
    HoldsAt(t, r, tail, 0);
  }

  // From the white space in front of a member to its value at q
  lemma FindKey(t: Text, p: nat, m: Member, q: nat, sofar: seq<(bytes, Value)>)
    requires t.Valid()
    requires IsWs(m.before) && WellFormedChars(m.key) && IsWs(m.afterKey) && IsWs(m.afterColon)
    requires Holds(t, p, RenderKey(m)) && q == p + |RenderKey(m)| && q < t.End() && StartsToken(t.source[q])
    ensures t.Members(p, sofar) == t.MemberValueAt(q, CharsMeaning(m.key), sofar)
  {
    hide Text.Members, Text.MemberValueAt, Text.MemberColon, Text.Look, Text.Skip, Text.StringBody, Text.Valid, Holds,
         CharsMeaning, RenderChars, RenderKey, CString, IsWs;
    var k, c, d := KeyParts(t, p, m);
    LookPastWs(t, p, m.before);
    ReadString(t, k + 1, m.key);
    LookPastWs(t, c, m.afterKey);
    OneName(t, p, k, CharsMeaning(m.key), c, sofar);
    LookPastWs(t, d + 1, m.afterColon);
    OneColon(t, c, d, q, CharsMeaning(m.key), sofar);
  }

  // The opening quote is at k, the closing one just before c and the colon at d.
  lemma KeyParts(t: Text, p: nat, m: Member) returns (k: nat, c: nat, d: nat)
    requires Holds(t, p, RenderKey(m))
    ensures k == p + |m.before| && c == k + 2 + |RenderChars(m.key)| && d == c + |m.afterKey|
    ensures p + |RenderKey(m)| == d + 1 + |m.afterColon| < |t.source|
    ensures Holds(t, p, m.before) && Holds(t, k + 1, RenderChars(m.key))
    ensures Holds(t, c, m.afterKey) && Holds(t, d + 1, m.afterColon)
    ensures t.source[k] == t.source[c - 1] == DQUOTE && t.source[d] == COLON
  {
    hide Holds, RenderChars;
    k := p + |m.before|;
    c := k + 2 + |RenderChars(m.key)|;
    d := c + |m.afterKey|;
    HoldsSplit3(t, p, m.before, RenderString(m.key), m.afterKey + ([COLON] + m.afterColon));
    HoldsSplit3(t, c, m.afterKey, [COLON], m.afterColon);
    StringParts(t, k, m.key);
    HoldsAt(t, d, [COLON], 0);
  }

  // ---- such a text is a C string ----

  lemma {:induction false} CharsAreCString(chars: seq<Char>)
    requires WellFormedChars(chars)
    ensures NUL !in RenderChars(chars)
  {
    if chars != [] {
      CharsAreCString(chars[1..]);
      assert NUL !in RenderChar(chars[0]) by {
        if chars[0].Unicode? {
          assert forall i :: 0 <= i < 4 ==> chars[0].hex[i] != NUL;
        }
      }
    }
  }

  lemma RenderIsCString(d: Doc)
    requires WellFormed(d)
    ensures NUL !in Render(d)
    decreases d, 1
  {
    match d
    case NullDoc =>
    case BoolDoc(_) =>
    case NumberDoc(_, digits) =>
    case StringDoc(chars) => CharsAreCString(chars);
    case ArrayDoc(_, items) => if items != [] { ItemsAreCString(items); }
    case ObjectDoc(_, members) => if members != [] { MembersAreCString(members); }
  }

  lemma ItemsAreCString(items: seq<Item>)
    requires items != [] && WellFormedItems(items)
    ensures NUL !in RenderItems(items)
    decreases items, 0
  {
    hide Render, WellFormed;
    RenderIsCString(items[0].doc);
    if items[1..] != [] {
      ItemsAreCString(items[1..]);
    }
  }

  lemma MembersAreCString(members: seq<Member>)
    requires members != [] && WellFormedMembers(members)
    ensures NUL !in RenderMembers(members)
    decreases members, 0
  {
    hide Render, WellFormed, RenderKey;
    var m := members[0];
    RenderIsCString(m.doc);
    KeyIsCString(m);
    if members[1..] != [] {
      MembersAreCString(members[1..]);
    }
  }

  lemma KeyIsCString(m: Member)
    requires IsWs(m.before) && WellFormedChars(m.key) && IsWs(m.afterKey) && IsWs(m.afterColon)
    ensures NUL !in RenderKey(m)
  {
    hide RenderChars, WellFormedChars;
    CharsAreCString(m.key);
  }

  // Every such text is a C string and is read to its end, with the value the
  // standard gives it.
  lemma StandardTextsAreAccepted(t: Text, before: bytes, d: Doc, after: bytes)
    requires IsWs(before) && WellFormed(d) && IsWs(after)
    requires t.source == before + Render(d) + after + [NUL]
    ensures t.Valid() && t.ParseAt(0) == Ok(Meaning(d), t.End())
  {
    hide Text.ParseAt, Text.ValueAt, Text.Finish, Text.Look, Text.Skip, Meaning, Render, WellFormed, Holds;
    var q, r := |before|, |before| + |Render(d)|;
    HoldsWhole(t, before, d, after);
    hide IsWs;
    RenderStarts(d);
    HoldsAt(t, q, Render(d), 0);
    LookPastWs(t, 0, before);
    WsIsNotNumber(t, r, after);
    ReadValue(t, q, d);
    FinishBefore(t, Meaning(d), r, after);
    FromTheStart(t, q);
  }

  lemma HoldsWhole(t: Text, before: bytes, d: Doc, after: bytes)
    requires IsWs(before) && WellFormed(d) && IsWs(after)
    requires t.source == before + Render(d) + after + [NUL]
    ensures t.Valid() && t.End() == |before| + |Render(d)| + |after|
    ensures Holds(t, 0, before) && Holds(t, |before|, Render(d)) && Holds(t, |before| + |Render(d)|, after)
  {
    RenderIsCString(d);
    hide Render, WellFormed;
    ThreePieces(t, before, Render(d), after);
  }

  lemma ThreePieces(t: Text, a: bytes, b: bytes, c: bytes)
    requires t.source == a + b + c + [NUL] && NUL !in a && NUL !in b && NUL !in c
    ensures t.Valid() && t.End() == |a| + |b| + |c|
    ensures Holds(t, 0, a) && Holds(t, |a|, b) && Holds(t, |a| + |b|, c)
  {
    var s := t.source;
    assert s[0..0 + |a|] == a && s[|a|..|a| + |b|] == b && s[|a| + |b|..|a| + |b| + |c|] == c;
    forall i | 0 <= i < |s| - 1 ensures s[i] != NUL {
      assert s[i] == if i < |a| then a[i] else if i < |a| + |b| then b[i - |a|] else c[i - |a| - |b|];
    }
  }

  lemma WsIsNotNumber(t: Text, p: nat, ws: bytes)
    requires t.Valid()
    requires Holds(t, p, ws) && IsWs(ws) && p + |ws| == t.End()
    ensures !IsNumberChar(t.source[p])
  {
    if ws != [] {
      HoldsAt(t, p, ws, 0);
    }
  }

  lemma FromTheStart(t: Text, q: nat)
    requires t.Valid() && q < t.End() && t.Look(0) == Token((), q)
    ensures t.ParseAt(0) == t.ValueAt(q)
  {
  }
}
