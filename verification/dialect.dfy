/** What the parser makes of its text beyond the standard, and what it refuses.

    Each statement speaks of the characters of the text alone: words in any case, both
    quotes, comments, escapes, numbers, separators, and the error of everything else. */
module Dialect {
  import opened Bytes
  import opened OrderedMap
  import opened Json
  import opened Reader

  // ---- words ----

  predicate IsWord(word: bytes, v: Value, mismatch: Error) {
    || (word == Ascii("null") && v == Null && mismatch == ErrNull)
    || (word == Ascii("true") && v == Bool(true) && mismatch == ErrBoolean)
    || (word == Ascii("false") && v == Bool(false) && mismatch == ErrBoolean)
  }

  // The i-th letter of the word stands behind p, small or capital.
  predicate LetterAt(t: Text, p: nat, word: bytes, i: nat) {
    i < |word| && p + i < |t.source| && (t.source[p + i] == word[i] || t.source[p + i] as int == word[i] as int - 0x20)
  }

  predicate AreLetters(word: bytes) {
    forall i :: 0 <= i < |word| ==> 0x61 <= word[i] <= 0x7A
  }

  lemma LowerIs(c: byte, w: byte)
    requires 0x61 <= w <= 0x7A
    ensures Lower(c) == w <==> c == w || c as int == w as int - 0x20
  {
  }

  lemma {:induction false} KeywordReads(t: Text, p: nat, word: bytes, k: nat, n: nat, mismatch: Error)
    requires t.Valid() && AreLetters(word) && k <= n <= |word| && p + k <= t.End()
    requires forall i :: k <= i < n ==> LetterAt(t, p, word, i)
    ensures p + n <= t.End()
    ensures n == |word| ==> t.Keyword(p, word, k, mismatch) == Token((), p + n)
    ensures n < |word| && !LetterAt(t, p, word, n) ==>
              t.Keyword(p, word, k, mismatch) == Bad(if t.source[p + n] == NUL then ErrEof else mismatch)
    decreases n - k
  {
    if k < |word| {
      LowerIs(t.source[p + k], word[k]);
      if k < n {
        assert LetterAt(t, p, word, k);
        KeywordReads(t, p, word, k + 1, n, mismatch);
      }
    }
  }

  // A word is read in any mixture of small and capital letters; one that goes wrong behind
  // its first n letters, n > 0, is refused with the error of its word.
  lemma WordsInAnyCase(t: Text, p: nat, word: bytes, v: Value, mismatch: Error, n: nat)
    requires t.Valid() && p < t.End() && IsWord(word, v, mismatch) && 0 < n <= |word|
    requires forall i :: 0 <= i < n ==> LetterAt(t, p, word, i)
    ensures p + n <= t.End()
    ensures n == |word| ==> t.ValueAt(p) == t.Finish(v, p + n)
    ensures n < |word| && !LetterAt(t, p, word, n) ==>
              t.ValueAt(p) == Err(if t.source[p + n] == NUL then ErrEof else mismatch)
  {
    hide Text.Keyword, Text.Finish, Text.Members, Text.Elements, Text.StringBody, Text.NumberEnd, Text.FinishNumber;
    WordLetters(word, v, mismatch);
    KeywordReads(t, p, word, 0, n, mismatch);
    assert LetterAt(t, p, word, 0);
  }

  lemma WordLetters(word: bytes, v: Value, mismatch: Error)
    requires IsWord(word, v, mismatch)
    ensures AreLetters(word)
    ensures word == match v case Null => NULL_TEXT case Bool(b) => if b then TRUE_TEXT else FALSE_TEXT case _ => []
  {
    Characters();
  }

  // ---- the first character ----

  lemma ValueStarts(c: byte)
    ensures c in Ascii("{[\"'nNtTfF-0123456789") <==>
              || c == LBRACE || c == LBRACKET || IsQuote(c) || Lower(c) in {LOWER_N, LOWER_T, LOWER_F}
              || c == MINUS || IsDigit(c)
  {
    var digits: bytes := [0x30, 0x31, 0x32, 0x33, 0x34, 0x35, 0x36, 0x37, 0x38, 0x39];
    var others: bytes := [0x7B, 0x5B, 0x22, 0x27, 0x6E, 0x4E, 0x74, 0x54, 0x66, 0x46, 0x2D];
    assert Ascii("{[\"'nNtTfF-0123456789") == others + digits;
    hide Ascii;
    assert c in digits <==> IsDigit(c);
  }

  lemma OthersAreRefused(t: Text, p: nat)
    requires t.Valid() && p < t.End() && t.source[p] !in Ascii("{[\"'nNtTfF-0123456789")
    ensures t.ValueAt(p) == Err(ErrUnexpected)
  {
    ValueStarts(t.source[p]);
    hide Ascii, Lower;
  }

  lemma BracketsOpen(t: Text, p: nat)
    requires t.Valid() && p < t.End()
    ensures t.source[p] in Ascii("[") ==> t.ValueAt(p) == t.Elements(p + 1, [])
    ensures t.source[p] in Ascii("{") ==> t.ValueAt(p) == t.Members(p + 1, [])
  {
    assert Ascii("[") == [0x5B] && Ascii("{") == [0x7B];
  }

  // ---- white space and comments ----

  lemma WhiteSpaceIsSkipped(t: Text, p: nat)
    requires t.Valid() && p <= t.End() && t.source[p] !in Ascii("/")
    ensures t.Skip(p) == if 9 <= t.source[p] <= 13 || t.source[p] == 32 then t.Skip(p + 1) else At(p)
  {
    assert Ascii("/") == [SLASH];
  }

  // The number of stars that stand one after another right before q, in a comment from p
  function Stars(t: Text, p: nat, q: nat): nat
    requires p <= q <= |t.source|
  {
    if p < q && t.source[q - 1] in Ascii("*") then Stars(t, p, q - 1) + 1 else 0
  }

  predicate EndsBlock(t: Text, p: nat, q: nat)
    requires p <= q < |t.source|
  {
    t.source[q] in Ascii("/") && Stars(t, p, q) % 2 == 1
  }

  predicate StaysInBlock(t: Text, p: nat, q: nat)
    requires p <= q <= |t.source|
  {
    forall i :: p <= i < q ==> !EndsBlock(t, p, i)
  }

  lemma {:induction false} InsideBlock(t: Text, p: nat, q: nat)
    requires t.Valid() && p <= q <= t.End() && StaysInBlock(t, p, q)
    ensures t.BlockComment(p) == if Stars(t, p, q) % 2 == 1 then t.BlockCommentStar(q) else t.BlockComment(q)
    decreases q - p
  {
    if p < q {
      InsideBlock(t, p, q - 1);
      assert !EndsBlock(t, p, q - 1);
      assert Ascii("*") == [STAR] && Ascii("/") == [SLASH];
      hide Stars;
      NextStar(t, p, q);
    }
  }

  lemma NextStar(t: Text, p: nat, q: nat)
    requires p < q <= |t.source|
    ensures Stars(t, p, q) == if t.source[q - 1] == STAR then Stars(t, p, q - 1) + 1 else 0
  {
    assert Ascii("*") == [STAR];
  }

  // A block comment ends at the first slash with an odd number of stars before it: two
  // stars in front of the slash do not close it.
  lemma BlockComments(t: Text, p: nat, q: nat)
    requires t.Valid() && p + 2 <= q <= t.End() && t.source[p..p + 2] == Ascii("/*")
    requires StaysInBlock(t, p + 2, q)
    ensures EndsBlock(t, p + 2, q) ==> t.Skip(p) == t.Skip(q + 1)
    ensures q == t.End() ==> t.Skip(p) == Unclosed
  {
    assert t.source[p..p + 2][0] == SLASH && t.source[p..p + 2][1] == STAR;
    assert Ascii("/") == [SLASH];
    InsideBlock(t, p + 2, q);
    hide Stars;
  }

  lemma {:induction false} InsideLine(t: Text, p: nat, q: nat)
    requires t.Valid() && p <= q <= t.End() && forall i :: p <= i < q ==> t.source[i] != 10
    ensures t.LineComment(p) == t.LineComment(q)
    decreases q - p
  {
    if p < q {
      InsideLine(t, p + 1, q);
    }
  }

  // A line comment ends at the first line feed.
  lemma LineComments(t: Text, p: nat, q: nat)
    requires t.Valid() && p + 2 <= q <= t.End() && t.source[p..p + 2] == Ascii("//")
    requires forall i :: p + 2 <= i < q ==> t.source[i] != 10
    ensures t.source[q] == 10 ==> t.Skip(p) == t.Skip(q + 1)
    ensures q == t.End() ==> t.Skip(p) == Unclosed
  {
    assert t.source[p..p + 2][0] == SLASH && t.source[p..p + 2][1] == SLASH;
    InsideLine(t, p + 2, q);
  }

  lemma OtherSlashes(t: Text, p: nat)
    requires t.Valid() && p < t.End() && t.source[p] in Ascii("/") && t.source[p + 1] !in Ascii("/*")
    ensures t.Skip(p) == Malformed
  {
    assert Ascii("/") == [SLASH] && Ascii("/*") == [SLASH, STAR];
  }

  // ---- strings ----

  lemma {:induction false} RunIsCopied(t: Text, p: nat, q: nat, quote: byte, sofar: bytes)
    requires t.Valid() && p <= q <= t.End()
    requires forall i :: p <= i < q ==> t.source[i] != quote && t.source[i] != 0x5C
    ensures t.StringBody(p, quote, sofar) == t.StringBody(q, quote, sofar + t.source[p..q])
    decreases q - p
  {
    if p == q {
      assert sofar + t.source[p..q] == sofar;
    } else {
      RunIsCopied(t, p + 1, q, quote, sofar + [t.source[p]]);
      assert sofar + [t.source[p]] + t.source[p + 1..q] == sofar + t.source[p..q];
    }
  }

  // Between two quotes of one kind, double or single, everything but a backslash stands
  // for itself.
  lemma QuotedStrings(t: Text, p: nat, q: nat)
    requires t.Valid() && p < q <= t.End() && t.source[p] in Ascii("\"'")
    requires forall i :: p < i < q ==> t.source[i] != t.source[p] && t.source[i] != 0x5C
    ensures t.source[q] == t.source[p] ==> t.ValueAt(p) == t.Finish(String(t.source[p + 1..q]), q + 1)
    ensures q == t.End() ==> t.ValueAt(p) == Err(ErrEof)
  {
    hide Text.Finish, Text.StringBody;
    assert Ascii("\"'") == [DQUOTE, SQUOTE];
    hide Ascii;
    AtQuote(t, p);
    hide Text.ValueAt, Text.Skip;
    var quote, s := t.source[p], t.source[p + 1..q];
    RunIsCopied(t, p + 1, q, quote, []);
    StringStops(t, q, quote, s);
    EmptyFirst(s);
    CStringOfNulFree(s);
    hide CString;
  }

  lemma EmptyFirst(s: bytes)
    ensures [] + s == s
  {
  }

  lemma AtQuote(t: Text, p: nat)
    requires t.Valid() && p < t.End() && (t.source[p] == DQUOTE || t.source[p] == SQUOTE)
    ensures t.ValueAt(p) == t.FinishString(t.StringBody(p + 1, t.source[p], []))
  {
    hide Text.StringBody, Text.FinishString;
  }

  lemma StringStops(t: Text, p: nat, quote: byte, sofar: bytes)
    requires t.Valid() && p <= t.End() && (quote == DQUOTE || quote == SQUOTE)
    ensures t.source[p] == quote ==> t.StringBody(p, quote, sofar) == Token(sofar, p + 1)
    ensures p == t.End() ==> t.StringBody(p, quote, sofar) == Bad(ErrEof)
  {
    hide Text.StringEscape;
  }

  // The escapes; of any other character behind a backslash, the slash, the single quote
  // and the NUL included, the string is refused.
  lemma EscapesRead(t: Text, p: nat, quote: byte, sofar: bytes)
    requires t.Valid() && p < t.End() && t.source[p] == 0x5C && quote in Ascii("\"'")
    ensures var e := t.source[p + 1];
            t.StringBody(p, quote, sofar) ==
              if e == 0x22 || e == 0x5C then t.StringBody(p + 2, quote, sofar + [e])
              else if e in Ascii("b") then t.StringBody(p + 2, quote, sofar + [8])
              else if e in Ascii("n") then t.StringBody(p + 2, quote, sofar + [10])
              else if e in Ascii("r") then t.StringBody(p + 2, quote, sofar + [13])
              else if e in Ascii("t") then t.StringBody(p + 2, quote, sofar + [9])
              else if e in Ascii("u") then t.StringUnicode(p + 2, 0, quote, sofar)
              else Bad(ErrString)
  {
    hide Text.StringUnicode;
    assert Ascii("\"'") == [DQUOTE, SQUOTE];
    assert Ascii("b") == [0x62] && Ascii("n") == [0x6E] && Ascii("r") == [0x72] && Ascii("t") == [0x74]
           && Ascii("u") == [0x75];
    assert t.StringBody(p, quote, sofar) == t.StringEscape(p + 1, quote, sofar);
  }

  // Four digits in lower case are the number of a character; a string with fewer of them
  // is refused.
  lemma {:induction false} CodesRead(t: Text, p: nat, k: nat, n: nat, quote: byte, sofar: bytes)
    requires t.Valid() && k <= n <= 4 && p + n <= t.End()
    requires forall i :: p <= i < p + n ==> t.source[i] in Ascii("0123456789abcdef")
    ensures forall i :: p <= i < p + n ==> IsHexChar(t.source[i])
    ensures n == 4 ==>
              t.StringUnicode(p, k, quote, sofar)
                == t.StringBody(p + 4, quote, sofar + Utf8(HexValue(t.source[p..p + 4])))
    ensures n < 4 && t.source[p + n] !in Ascii("0123456789abcdef") ==>
              t.StringUnicode(p, k, quote, sofar) == Bad(if t.source[p + n] == NUL then ErrEof else ErrString)
    decreases n - k
  {
    hide Text.StringBody, Utf8, HexValue;
    forall i | p <= i < p + n ensures IsHexChar(t.source[i]) {
      Classes(t.source[i]);
    }
    Classes(t.source[p + n]);
    hide Ascii, IsHexChar;
    if k < n {
      CodesRead(t, p, k + 1, n, quote, sofar);
    }
  }

  // ---- numbers ----

  // From start on, exactly d characters are digits.
  predicate DigitsFrom(literal: bytes, start: nat, d: nat) {
    && start + d <= |literal| && (forall i :: start <= i < start + d ==> 0x30 <= literal[i] <= 0x39)
    && (start + d < |literal| ==> !(0x30 <= literal[start + d] <= 0x39))
  }

  lemma {:induction false} RunOfDigits(s: bytes, d: nat)
    requires DigitsFrom(s, 0, d)
    ensures DigitRun(s) == s[..d]
    decreases d
  {
    if d > 0 {
      RunOfDigits(s[1..], d - 1);
      assert s[..d] == [s[0]] + s[1..][..d - 1];
    }
  }

  // A literal with neither a dot nor an e has the value of the digits at its front; with no
  // digit behind the minus sign it is refused. Any other is a double if sscanf takes it for one.
  lemma IntLiterals(t: Text, literal: bytes, d: nat)
    requires literal != [] && (literal[0] == 0x2D || 0x30 <= literal[0] <= 0x39)
    requires 0x2E !in literal && 0x65 !in literal
    requires var start := if literal[0] == 0x2D then 1 else 0; DigitsFrom(literal, start, d)
    ensures d == 0 ==> t.NumberValue(literal) == None
    ensures d > 0 ==>
              var start := if literal[0] == 0x2D then 1 else 0;
              var m: int := Decimal(literal[start..start + d]);
              var n := if literal[0] == 0x2D then -m else m;
              t.NumberValue(literal)
                == Some(Int(if -0x8000_0000 <= n <= 0x7FFF_FFFF then n else t.scanf.outOfRange(n)))
  {
    var start := if literal[0] == 0x2D then 1 else 0;
    var s := literal[start..];
    assert s[..d] == literal[start..start + d];
    RunOfDigits(s, d);
    assert start == 0 ==> s == literal;
    hide Decimal, DigitRun;
  }

  lemma DoubleLiterals(t: Text, literal: bytes)
    requires 0x2E in literal || 0x65 in literal
    ensures t.NumberValue(literal) == if t.scanf.readsDouble(literal) then Some(Double(literal)) else None
  {
  }

  // A number extends over the characters of "0123456789.+-e".
  lemma Numbers(t: Text, p: nat, q: nat)
    requires t.Valid() && p < q <= t.End() && t.source[p] in Ascii("-0123456789")
    requires forall i :: p < i < q ==> t.source[i] in Ascii("0123456789.+-e")
    requires t.source[q] !in Ascii("0123456789.+-e")
    ensures t.ValueAt(p) == match t.NumberValue(t.source[p..q])
                            case None => Err(ErrNumber)
                            case Some(v) => t.Finish(v, q)
  {
    hide Text.Finish, Text.Members, Text.Elements, Text.Keyword, Text.StringBody, Text.NumberEnd, Text.NumberValue;
    StartsNumber(t.source[p]);
    forall i | p < i < q ensures IsNumberChar(t.source[i]) {
      Classes(t.source[i]);
    }
    Classes(t.source[q]);
    hide Ascii;
    NumberGoesTo(t, p + 1, q);
  }

  lemma StartsNumber(c: byte)
    requires c in Ascii("-0123456789")
    ensures c == 0x2D || 0x30 <= c <= 0x39
  {
    assert Ascii("-0123456789") == [0x2D, 0x30, 0x31, 0x32, 0x33, 0x34, 0x35, 0x36, 0x37, 0x38, 0x39];
  }

  lemma {:induction false} NumberGoesTo(t: Text, p: nat, q: nat)
    requires t.Valid() && p <= q <= t.End() && !IsNumberChar(t.source[q])
    requires forall i :: p <= i < q ==> IsNumberChar(t.source[i])
    ensures t.NumberEnd(p) == q
    decreases q - p
  {
    if p < q {
      NumberGoesTo(t, p + 1, q);
    }
  }

  // ---- arrays and objects ----

  // What is left of a value or a separator behind a gap that leads to no character
  function NoCharacter(t: Text, g: Gap): (e: Option<Error>)
    requires g.At? ==> g.pos < |t.source|
  {
    match g
    case Malformed => Some(ErrComment)
    case Unclosed => Some(ErrEof)
    case At(q) => if t.source[q] == 0 then Some(ErrEof) else None
  }

  lemma ValuesBegin(t: Text, p: nat)
    requires t.Valid() && p <= t.End()
    ensures var g := t.Skip(p);
            t.ParseAt(p) == match NoCharacter(t, g) case Some(e) => Err(e) case None => t.ValueAt(g.pos)
  {
    hide Text.Skip, Text.ValueAt;
  }

  lemma ValuesEnd(t: Text, v: Value, p: nat)
    requires t.Valid() && p <= t.End()
    ensures t.Finish(v, p) == match t.Skip(p)
                              case At(q) => Ok(v, q)
                              case Unclosed => Ok(v, |t.source|)
                              case Malformed => Err(ErrComment)
  {
  }

  // In an array a value or the bracket is due first and behind a comma, so that a trailing
  // comma is accepted; behind a value, a comma or the bracket.
  lemma Arrays(t: Text, p: nat, elems: seq<Value>)
    requires t.Valid() && p <= t.End() && t.Skip(p).At? && t.source[t.Skip(p).pos] != 0
    ensures var q := t.Skip(p).pos;
            && q < t.End()
            && t.Elements(p, elems) ==
                 (if t.source[q] in Ascii("]") then t.Finish(Array(elems), q + 1)
                  else match t.ParseAt(q)
                    case Ok(v, r) => if r == |t.source| then Overrun else t.ElementSep(r, elems + [v])
                    case e => e)
            && t.ElementSep(p, elems) ==
                 (if t.source[q] in Ascii("]") then t.Finish(Array(elems), q + 1)
                  else if t.source[q] in Ascii(",") then t.Elements(q + 1, elems)
                  else Err(ErrArray))
  {
    assert Ascii("]") == [0x5D] && Ascii(",") == [0x2C];
    hide Text.Skip, Text.ParseAt, Text.Finish, Ascii;
    var q := t.Skip(p).pos;
    assert t.Elements(p, elems) == t.ElementsAt(q, elems) && t.ElementSep(p, elems) == t.ElementSepAt(q, elems);
  }

  // In an object a quoted name or the brace is due first and behind a comma.
  lemma Names(t: Text, p: nat, fields: seq<(bytes, Value)>)
    requires t.Valid() && p <= t.End() && t.Skip(p).At? && t.source[t.Skip(p).pos] != 0
    ensures var q := t.Skip(p).pos;
            && q < t.End()
            && (t.source[q] in Ascii("}") ==> t.Members(p, fields) == t.Finish(Object(fields), q + 1))
            && (t.source[q] in Ascii("\"'") ==>
                 var l := t.StringBody(q + 1, t.source[q], []);
                 t.Members(p, fields)
                   == if l.Token? then t.MemberColon(l.end, CString(l.value), fields) else Err(l.error))
            && (t.source[q] !in Ascii("}\"'") ==> t.Members(p, fields) == Err(ErrObject))
  {
    assert Ascii("}\"'") == [0x7D, 0x22, 0x27];
    assert Ascii("}") == [0x7D] && Ascii("\"'") == [0x22, 0x27];
    hide Text.Skip, Text.MemberColon, Text.MemberName, Text.Finish, Text.StringBody, Ascii, CString;
    var q := t.Skip(p).pos;
    assert t.Members(p, fields) == t.MembersAt(q, fields);
    if t.source[q] == DQUOTE || t.source[q] == SQUOTE {
      NameIs(t, t.StringBody(q + 1, t.source[q], []), fields);
    }
  }

  lemma NameIs(t: Text, l: Lex<bytes>, fields: seq<(bytes, Value)>)
    requires t.Valid() && (l.Token? ==> l.end <= t.End())
    ensures t.MemberName(l, fields)
         == if l.Token? then t.MemberColon(l.end, CString(l.value), fields) else Err(l.error)
  {
  }

  // Behind a name, the colon and a value; behind a value, a comma or the brace.
  lemma Objects(t: Text, p: nat, fields: seq<(bytes, Value)>, name: bytes)
    requires t.Valid() && p <= t.End() && t.Skip(p).At? && t.source[t.Skip(p).pos] != 0
    ensures var q := t.Skip(p).pos;
            && q < t.End()
            && t.MemberColon(p, name, fields) ==
                 (if t.source[q] in Ascii(":") then t.MemberValue(q + 1, name, fields) else Err(ErrObject))
            && t.MemberValue(p, name, fields) ==
                 (match t.ParseAt(q)
                  case Ok(v, r) => if r == |t.source| then Overrun else t.MemberSep(r, Add(fields, name, v))
                  case e => e)
            && t.MemberSep(p, fields) ==
                 (if t.source[q] in Ascii("}") then t.Finish(Object(fields), q + 1)
                  else if t.source[q] in Ascii(",") then t.Members(q + 1, fields)
                  else Err(ErrObject))
  {
    assert Ascii("}") == [0x7D] && Ascii(",") == [0x2C] && Ascii(":") == [0x3A];
    hide Text.Skip, Text.ParseAt, Text.Finish, Text.Members, Ascii, Add;
    var q := t.Skip(p).pos;
    assert t.MemberSep(p, fields) == t.MemberSepAt(q, fields);
    assert t.MemberColon(p, name, fields) == t.MemberColonAt(q, name, fields);
    assert t.MemberValue(p, name, fields) == t.MemberValueAt(q, name, fields);
  }

  // Where no character follows, all of them are refused alike.
  lemma NothingFollows(t: Text, p: nat, elems: seq<Value>, fields: seq<(bytes, Value)>, name: bytes)
    requires t.Valid() && p <= t.End() && (t.Skip(p).At? ==> t.source[t.Skip(p).pos] == 0)
    ensures var r := Err(if t.Skip(p).Malformed? then ErrComment else ErrEof);
            && t.ParseAt(p) == t.Elements(p, elems) == t.ElementSep(p, elems) == t.Members(p, fields) == r
            && t.MemberColon(p, name, fields) == t.MemberValue(p, name, fields) == t.MemberSep(p, fields) == r
  {
    hide Text.Skip;
  }

  lemma TrailingComma(t: Text, p: nat, elems: seq<Value>)
    requires t.Valid() && p <= t.End() && t.Skip(p).At? && t.source[t.Skip(p).pos] == 0x2C
    requires var g := t.Skip(t.Skip(p).pos + 1); g.At? && t.source[g.pos] == 0x5D
    ensures t.ElementSep(p, elems) == t.Finish(Array(elems), t.Skip(t.Skip(p).pos + 1).pos + 1)
  {
    assert Ascii("]") == [0x5D] && Ascii(",") == [0x2C];
    hide Text.Finish, Text.Elements, Text.ElementSep, Text.Skip, Ascii;
    Arrays(t, p, elems);
    Arrays(t, t.Skip(p).pos + 1, elems);
  }

  lemma TrailingCommaInObject(t: Text, p: nat, fields: seq<(bytes, Value)>)
    requires t.Valid() && p <= t.End() && t.Skip(p).At? && t.source[t.Skip(p).pos] == 0x2C
    requires var g := t.Skip(t.Skip(p).pos + 1); g.At? && t.source[g.pos] == 0x7D
    ensures t.MemberSep(p, fields) == t.Finish(Object(fields), t.Skip(t.Skip(p).pos + 1).pos + 1)
  {
    assert Ascii("}") == [0x7D] && Ascii(",") == [0x2C];
    hide Text.Finish, Text.Members, Text.MemberSep, Text.Skip, Ascii, Text.StringBody, Text.ParseAt, CString;
    Objects(t, p, fields, []);
    Names(t, t.Skip(p).pos + 1, fields);
  }
}
