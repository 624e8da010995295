/** A recursive-descent reading of the texts that json_tokener.c accepts.

    This is the specification the tokener's state machine is proved against: one
    character at a time, without states, offsets or a shared buffer. */
module Reader {
  import opened Bytes
  import opened OrderedMap
  import opened Json

  datatype Error =
    | ErrUnexpected
    | ErrNull
    | ErrBoolean
    | ErrNumber
    | ErrArray
    | ErrObject
    | ErrString
    | ErrComment
    | ErrEof

  // Where a stretch of white space and comments leads.
  datatype Gap =
    | At(pos: nat)   // the next character that belongs to neither; may be the NUL
    | Malformed      // a '/' that starts no comment
    | Unclosed       // the text ends inside a comment

  datatype Lex<+T> =
    | Token(value: T, end: nat)
    | Bad(error: Error)

  datatype Parse =
    | Ok(value: Value, end: nat)
    | Err(error: Error)
    | Overrun        // a character past the terminating NUL was needed

  // What sscanf leaves to the platform: which literals "%lf" accepts, and what
  // "%d" yields for digits that do not fit an int.
  datatype Scanf = Scanf(readsDouble: bytes -> bool, outOfRange: int -> Int32)

  predicate IsControlEscape(e: byte) {
    e == LOWER_B || e == LOWER_N || e == LOWER_R || e == LOWER_T
  }

  // What the letter stands for behind a backslash
  function ControlChar(e: byte): byte
    requires IsControlEscape(e)
  {
    if e == LOWER_B then BS else if e == LOWER_N then LF else if e == LOWER_R then CR else TAB
  }

  // The natural number a run of digits denotes
  function Decimal(digits: bytes): (n: nat)
    requires forall i :: 0 <= i < |digits| ==> IsDigit(digits[i])
  {
    if digits == [] then 0
    else
      var last := |digits| - 1;
      assert IsDigit(digits[last]);
      10 * Decimal(digits[..last]) + (digits[last] - DIGIT_0) as int
  }

  function DigitRun(s: bytes): (r: bytes)
    ensures r <= s && forall i :: 0 <= i < |r| ==> IsDigit(r[i])
    ensures |r| < |s| ==> !IsDigit(s[|r|])
  {
    if s == [] || !IsDigit(s[0]) then [] else [s[0]] + DigitRun(s[1..])
  }

  // sscanf(s, "%d") on a text without leading white space
  function ScanInt(s: bytes): Option<int> {
    var signed := s != [] && (s[0] == MINUS || s[0] == PLUS);
    var digits := DigitRun(if signed then s[1..] else s);
    if digits == [] then None
    else
      var n: int := Decimal(digits);
      Some(if signed && s[0] == MINUS then -n else n)
  }

  // The UTF-8 form of a code unit below 0x10000 (a surrogate is encoded like any other)
  function Utf8(u: int): bytes
    requires 0 <= u < 0x1_0000
  {
    if u < 0x80 then [u as byte]
    else if u < 0x800 then [(0xC0 + u / 0x40) as byte, (0x80 + u % 0x40) as byte]
    else [(0xE0 + u / 0x1000) as byte, (0x80 + u / 0x40 % 0x40) as byte, (0x80 + u % 0x40) as byte]
  }

  function HexValue(h: bytes): (u: int)
    requires |h| == 4 && forall i :: 0 <= i < 4 ==> IsHexChar(h[i])
    ensures 0 <= u < 0x1_0000
  {
    HexDigit(h[0]) * 0x1000 + HexDigit(h[1]) * 0x100 + HexDigit(h[2]) * 0x10 + HexDigit(h[3])
  }

  datatype Text = Text(source: bytes, scanf: Scanf) {

    // A C string: its first NUL is the last byte of source.
    ghost predicate Valid() {
      && |source| > 0
      && source[|source| - 1] == NUL
      && forall i :: 0 <= i < |source| - 1 ==> source[i] != NUL
    }

    function End(): nat
      requires Valid()
    {
      |source| - 1
    }

    // ---- white space and comments ----

    function Skip(p: nat): (g: Gap)
      requires Valid() && p <= End()
      ensures g.At? ==> p <= g.pos <= End() && !IsSpace(source[g.pos]) && source[g.pos] != SLASH
      decreases End() - p, 1
    {
      if IsSpace(source[p]) then Skip(p + 1)
      else if source[p] == SLASH then Comment(p + 1)
      else At(p)
    }

    // Just after a '/'
    function Comment(p: nat): (g: Gap)
      requires Valid() && p <= End()
      ensures g.At? ==> p <= g.pos <= End() && !IsSpace(source[g.pos]) && source[g.pos] != SLASH
      decreases End() - p, 2
    {
      if source[p] == STAR then BlockComment(p + 1)
      else if source[p] == SLASH then LineComment(p + 1)
      else Malformed
    }

    // Inside a block comment. A '*' takes the next character with it even when
    // that is another '*', so "**/" does not close the comment.
    function BlockComment(p: nat): (g: Gap)
      requires Valid() && p <= End()
      ensures g.At? ==> p <= g.pos <= End() && !IsSpace(source[g.pos]) && source[g.pos] != SLASH
      decreases End() - p, 2
    {
      if source[p] == NUL then Unclosed
      else if source[p] == STAR then BlockCommentStar(p + 1)
      else BlockComment(p + 1)
    }

    function BlockCommentStar(p: nat): (g: Gap)
      requires Valid() && p <= End()
      ensures g.At? ==> p <= g.pos <= End() && !IsSpace(source[g.pos]) && source[g.pos] != SLASH
      decreases End() - p, 2
    {
      if source[p] == NUL then Unclosed
      else if source[p] == SLASH then Skip(p + 1)
      else BlockComment(p + 1)
    }

    function LineComment(p: nat): (g: Gap)
      requires Valid() && p <= End()
      ensures g.At? ==> p <= g.pos <= End() && !IsSpace(source[g.pos]) && source[g.pos] != SLASH
      decreases End() - p, 2
    {
      if source[p] == NUL then Unclosed
      else if source[p] == LF then Skip(p + 1)
      else LineComment(p + 1)
    }

    // ---- scalars ----

    // The word, in any case, of which k characters have been seen
    function Keyword(p: nat, word: bytes, k: nat, mismatch: Error): (l: Lex<()>)
      requires Valid() && k <= |word| && p + k <= End()
      ensures l.Token? ==> l.end == p + |word| <= End()
      decreases |word| - k
    {
      if k == |word| then Token((), p + k)
      else if source[p + k] == NUL then Bad(ErrEof)
      else if Lower(source[p + k]) != word[k] then Bad(mismatch)
      else Keyword(p, word, k + 1, mismatch)
    }

    // The first position from p on that holds no number character
    function NumberEnd(p: nat): (q: nat)
      requires Valid() && p <= End()
      ensures p <= q <= End() && !IsNumberChar(source[q])
      ensures forall i :: p <= i < q ==> IsNumberChar(source[i])
      decreases End() - p
    {
      if IsNumberChar(source[p]) then NumberEnd(p + 1) else p
    }

    // A literal with '.' or 'e' in it is read as a double.
    function NumberValue(literal: bytes): Option<Value> {
      if DOT in literal || LOWER_E in literal then
        if scanf.readsDouble(literal) then Some(Double(literal)) else None
      else
        match ScanInt(literal)
        case None => None
        case Some(n) =>
          Some(Int(if -0x8000_0000 <= n < 0x8000_0000 then n else scanf.outOfRange(n)))
    }

    // The rest of a string, of which the characters in sofar have been read
    function StringBody(p: nat, quote: byte, sofar: bytes): (l: Lex<bytes>)
      requires Valid() && p <= End()
      ensures l.Token? ==> p < l.end <= End()
      decreases End() - p
    {
      var c := source[p];
      if c == NUL then Bad(ErrEof)
      else if c == quote then Token(sofar, p + 1)
      else if c == BACKSLASH then StringEscape(p + 1, quote, sofar)
      else StringBody(p + 1, quote, sofar + [c])
    }

    // Just after a backslash
    function StringEscape(p: nat, quote: byte, sofar: bytes): (l: Lex<bytes>)
      requires Valid() && p <= End()
      ensures l.Token? ==> p < l.end <= End()
      decreases End() - p
    {
      var e := source[p];
      if e == DQUOTE || e == BACKSLASH then StringBody(p + 1, quote, sofar + [e])
      else if IsControlEscape(e) then StringBody(p + 1, quote, sofar + [ControlChar(e)])
      else if e == LOWER_U then StringUnicode(p + 1, 0, quote, sofar)
      else Bad(ErrString)
    }

    // After "\u" at p and k hexadecimal digits
    function StringUnicode(p: nat, k: nat, quote: byte, sofar: bytes): (l: Lex<bytes>)
      requires Valid() && k <= 4 && p + k <= End()
      requires forall i :: p <= i < p + k ==> IsHexChar(source[i])
      ensures l.Token? ==> p + k < l.end <= End()
      decreases End() - p, 4 - k
    {
      if k == 4 then StringBody(p + 4, quote, sofar + Utf8(HexValue(source[p..p + 4])))
      else if source[p + k] == NUL then Bad(ErrEof)
      else if !IsHexChar(source[p + k]) then Bad(ErrString)
      else StringUnicode(p, k + 1, quote, sofar)
    }

    // ---- values ----

    // A value is complete at p: the white space and comments behind it belong to it.
    // One that ends in an unclosed comment ends past the terminating NUL.
    function Finish(v: Value, p: nat): (r: Parse)
      requires Valid() && p <= End()
      ensures r.Ok? ==> r.value == v && p <= r.end <= |source|
      ensures !r.Overrun?
    {
      match Skip(p)
      case At(q) => Ok(v, q)
      case Unclosed => Ok(v, |source|)
      case Malformed => Err(ErrComment)
    }

    // The next character that has to be looked at; there must be one.
    function Look(p: nat): (l: Lex<()>)
      requires Valid() && p <= End()
      ensures l.Token? ==> p <= l.end < End() && Skip(p) == At(l.end)
    {
      match Skip(p)
      case At(q) => if source[q] == NUL then Bad(ErrEof) else Token((), q)
      case Unclosed => Bad(ErrEof)
      case Malformed => Bad(ErrComment)
    }

    function ParseAt(p: nat): (r: Parse)
      requires Valid() && p <= End()
      ensures r.Ok? ==> p < r.end <= |source|
      decreases End() - p, 4
    {
      match Look(p)
      case Bad(e) => Err(e)
      case Token(_, q) => ValueAt(q)
    }

    function ValueAt(p: nat): (r: Parse)
      requires Valid() && p < End()
      ensures r.Ok? ==> p < r.end <= |source|
      decreases End() - p, 3
    {
      var c := source[p];
      if c == LBRACE then Members(p + 1, [])
      else if c == LBRACKET then Elements(p + 1, [])
      else if Lower(c) == LOWER_N then FinishKeyword(Null, Keyword(p, NULL_TEXT, 0, ErrNull))
      else if IsQuote(c) then FinishString(StringBody(p + 1, c, []))
      else if Lower(c) == LOWER_T then FinishKeyword(Bool(true), Keyword(p, TRUE_TEXT, 0, ErrBoolean))
      else if Lower(c) == LOWER_F then FinishKeyword(Bool(false), Keyword(p, FALSE_TEXT, 0, ErrBoolean))
      else if IsDigit(c) || c == MINUS then FinishNumber(p, NumberEnd(p + 1))
      else Err(ErrUnexpected)
    }

    function FinishKeyword(v: Value, l: Lex<()>): (r: Parse)
      requires Valid() && (l.Token? ==> l.end <= End())
      ensures r.Ok? ==> l.Token? && l.end <= r.end <= |source|
    {
      match l
      case Bad(e) => Err(e)
      case Token(_, q) => Finish(v, q)
    }

    function FinishString(l: Lex<bytes>): (r: Parse)
      requires Valid() && (l.Token? ==> l.end <= End())
      ensures r.Ok? ==> l.Token? && l.end <= r.end <= |source|
    {
      match l
      case Bad(e) => Err(e)
      case Token(s, q) => Finish(String(CString(s)), q)
    }

    function FinishNumber(p: nat, q: nat): (r: Parse)
      requires Valid() && p <= q <= End()
      ensures r.Ok? ==> q <= r.end <= |source|
    {
      match NumberValue(source[p..q])
      case None => Err(ErrNumber)
      case Some(v) => Finish(v, q)
    }

    // ---- arrays: a value or the closing bracket is due ----

    function Elements(p: nat, elems: seq<Value>): (r: Parse)
      requires Valid() && p <= End()
      ensures r.Ok? ==> p < r.end <= |source|
      decreases End() - p, 6
    {
      match Look(p)
      case Bad(e) => Err(e)
      case Token(_, q) => ElementsAt(q, elems)
    }

    function ElementsAt(p: nat, elems: seq<Value>): (r: Parse)
      requires Valid() && p < End()
      ensures r.Ok? ==> p < r.end <= |source|
      decreases End() - p, 5
    {
      if source[p] == RBRACKET then Finish(Array(elems), p + 1)
      else
        match ParseAt(p)
        case Err(e) => Err(e)
        case Overrun => Overrun
        case Ok(v, q) => if q == |source| then Overrun else ElementSep(q, elems + [v])
    }

    function ElementSep(p: nat, elems: seq<Value>): (r: Parse)
      requires Valid() && p <= End()
      ensures r.Ok? ==> p < r.end <= |source|
      decreases End() - p, 6
    {
      match Look(p)
      case Bad(e) => Err(e)
      case Token(_, q) => ElementSepAt(q, elems)
    }

    function ElementSepAt(p: nat, elems: seq<Value>): (r: Parse)
      requires Valid() && p < End()
      ensures r.Ok? ==> p < r.end <= |source|
      decreases End() - p, 5
    {
      if source[p] == RBRACKET then Finish(Array(elems), p + 1)
      else if source[p] == COMMA then Elements(p + 1, elems)
      else Err(ErrArray)
    }

    // ---- objects: a field name or the closing brace is due ----

    function Members(p: nat, fields: seq<(bytes, Value)>): (r: Parse)
      requires Valid() && p <= End()
      ensures r.Ok? ==> p < r.end <= |source|
      decreases End() - p, 6
    {
      match Look(p)
      case Bad(e) => Err(e)
      case Token(_, q) => MembersAt(q, fields)
    }

    function MembersAt(p: nat, fields: seq<(bytes, Value)>): (r: Parse)
      requires Valid() && p < End()
      ensures r.Ok? ==> p < r.end <= |source|
      decreases End() - p, 5
    {
      if source[p] == RBRACE then Finish(Object(fields), p + 1)
      else if IsQuote(source[p]) then MemberName(StringBody(p + 1, source[p], []), fields)
      else Err(ErrObject)
    }

    function MemberName(l: Lex<bytes>, fields: seq<(bytes, Value)>): (r: Parse)
      requires Valid() && (l.Token? ==> l.end <= End())
      ensures r.Ok? ==> l.Token? && l.end < r.end <= |source|
      decreases if l.Token? then End() - l.end else 0, 7
    {
      match l
      case Bad(e) => Err(e)
      case Token(s, q) => MemberColon(q, CString(s), fields)
    }

    function MemberColon(p: nat, name: bytes, fields: seq<(bytes, Value)>): (r: Parse)
      requires Valid() && p <= End()
      ensures r.Ok? ==> p < r.end <= |source|
      decreases End() - p, 6
    {
      match Look(p)
      case Bad(e) => Err(e)
      case Token(_, q) => MemberColonAt(q, name, fields)
    }

    function MemberColonAt(p: nat, name: bytes, fields: seq<(bytes, Value)>): (r: Parse)
      requires Valid() && p < End()
      ensures r.Ok? ==> p < r.end <= |source|
      decreases End() - p, 5
    {
      if source[p] == COLON then MemberValue(p + 1, name, fields) else Err(ErrObject)
    }

    function MemberValue(p: nat, name: bytes, fields: seq<(bytes, Value)>): (r: Parse)
      requires Valid() && p <= End()
      ensures r.Ok? ==> p < r.end <= |source|
      decreases End() - p, 6
    {
      match Look(p)
      case Bad(e) => Err(e)
      case Token(_, q) => MemberValueAt(q, name, fields)
    }

    function MemberValueAt(p: nat, name: bytes, fields: seq<(bytes, Value)>): (r: Parse)
      requires Valid() && p < End()
      ensures r.Ok? ==> p < r.end <= |source|
      decreases End() - p, 5
    {
      match ParseAt(p)
      case Err(e) => Err(e)
      case Overrun => Overrun
      case Ok(v, q) => if q == |source| then Overrun else MemberSep(q, Add(fields, name, v))
    }

    function MemberSep(p: nat, fields: seq<(bytes, Value)>): (r: Parse)
      requires Valid() && p <= End()
      ensures r.Ok? ==> p < r.end <= |source|
      decreases End() - p, 6
    {
      match Look(p)
      case Bad(e) => Err(e)
      case Token(_, q) => MemberSepAt(q, fields)
    }

    function MemberSepAt(p: nat, fields: seq<(bytes, Value)>): (r: Parse)
      requires Valid() && p < End()
      ensures r.Ok? ==> p < r.end <= |source|
      decreases End() - p, 5
    {
      if source[p] == RBRACE then Finish(Object(fields), p + 1)
      else if source[p] == COMMA then Members(p + 1, fields)
      else Err(ErrObject)
    }
  }
}
