/** Where the strings of a printed text stand, and a parser that has lost them.

    A mark says of each position whether it is inside a string as it was printed, between
    the opening quote and the position behind the closing one. A parser that looks for
    syntax inside a string never finds its way out: whatever it accepts ends inside one. */
module Layout {
  import opened Bytes
  import opened OrderedMap
  import opened Json
  import opened Reader

  predicate Inside(m: seq<bool>, p: int) {
    0 <= p < |m| && m[p]
  }

  // Outside strings there is no backslash, single quote or slash, and a double quote opens
  // a string. Inside, a double quote that does not close the string has a backslash before it.
  predicate Local(s: bytes, m: seq<bool>, p: nat)
    requires p < |s|
  {
    && s[p] >= SPACE
    && if !Inside(m, p) then
         s[p] != BACKSLASH && s[p] != SQUOTE && s[p] != SLASH && (Inside(m, p + 1) <==> s[p] == DQUOTE)
       else
         (s[p] != DQUOTE ==> Inside(m, p + 1))
         && (s[p] == DQUOTE && Inside(m, p + 1) ==> p > 0 && s[p - 1] == BACKSLASH)
  }

  ghost predicate Laid(t: Text, m: seq<bool>) {
    t.Valid() && |m| == t.End() && forall p :: 0 <= p < t.End() ==> Local(t.source, m, p)
  }

  // The parser looks for syntax, but p is inside a string.
  ghost predicate Lost(t: Text, m: seq<bool>, p: nat) {
    Laid(t, m) && 0 < p < t.End() && Inside(m, p) && t.source[p - 1] != BACKSLASH
  }

  ghost predicate StaysLost(t: Text, m: seq<bool>, r: Parse) {
    r.Ok? ==> r.end == |t.source| || Lost(t, m, r.end)
  }

  // ---- tokens ----

  lemma {:induction false} RunStaysLost(t: Text, m: seq<bool>, p: nat, q: nat)
    requires Lost(t, m, p) && p <= q <= t.End()
    requires forall i :: p <= i < q ==> t.source[i] != DQUOTE && t.source[i] != BACKSLASH
    ensures Lost(t, m, q)
    decreases q - p
  {
    if p < q {
      assert Local(t.source, m, p);
      RunStaysLost(t, m, p + 1, q);
    }
  }

  // Comments end only inside strings, wherever they begin.
  lemma {:induction false} CommentEndsLost(t: Text, m: seq<bool>, p: nat)
    requires Laid(t, m) && p <= t.End()
    ensures Lost(t, m, p) && t.Skip(p).At? ==> Lost(t, m, t.Skip(p).pos)
    ensures t.Comment(p).At? ==> Lost(t, m, t.Comment(p).pos)
    ensures t.BlockComment(p).At? ==> Lost(t, m, t.BlockComment(p).pos)
    ensures t.BlockCommentStar(p).At? ==> Lost(t, m, t.BlockCommentStar(p).pos)
    ensures t.LineComment(p).At? ==> Lost(t, m, t.LineComment(p).pos)
    decreases t.End() - p
  {
    if p < t.End() {
      assert Local(t.source, m, p);
      CommentEndsLost(t, m, p + 1);
    }
  }

  lemma LookStaysLost(t: Text, m: seq<bool>, p: nat)
    requires Lost(t, m, p)
    ensures t.Look(p).Token? ==> Lost(t, m, t.Look(p).end)
  {
    hide Text.Skip, Lost;
    Bounded(t, m, p);
    CommentEndsLost(t, m, p);
  }

  lemma Bounded(t: Text, m: seq<bool>, p: nat)
    requires Lost(t, m, p)
    ensures t.Valid() && Laid(t, m) && 0 < p < t.End()
  {
  }

  lemma FinishStaysLost(t: Text, m: seq<bool>, v: Value, p: nat)
    requires Lost(t, m, p)
    ensures StaysLost(t, m, t.Finish(v, p))
  {
    hide Text.Skip, Lost;
    Bounded(t, m, p);
    CommentEndsLost(t, m, p);
  }

  // A string ends behind its quote.
  lemma {:induction false} EndsWithQuote(t: Text, p: nat, quote: byte, sofar: bytes)
    requires t.Valid() && p <= t.End()
    ensures var l := t.StringBody(p, quote, sofar);
            l.Token? ==> p < l.end && t.source[l.end - 1] == quote
    ensures var l := t.StringEscape(p, quote, sofar);
            l.Token? ==> p < l.end && t.source[l.end - 1] == quote
    decreases t.End() - p, 1
  {
    hide Utf8, HexValue;
    var c := t.source[p];
    if c != NUL {
      if c != quote && c != BACKSLASH {
        EndsWithQuote(t, p + 1, quote, sofar + [c]);
      } else if c == BACKSLASH {
        EndsWithQuote(t, p + 1, quote, sofar);
      }
      if c == DQUOTE || c == BACKSLASH {
        EndsWithQuote(t, p + 1, quote, sofar + [c]);
      } else if IsControlEscape(c) {
        EndsWithQuote(t, p + 1, quote, sofar + [ControlChar(c)]);
      } else if c == LOWER_U {
        UnicodeEndsWithQuote(t, p + 1, 0, quote, sofar);
      }
    }
  }

  lemma {:induction false} UnicodeEndsWithQuote(t: Text, p: nat, k: nat, quote: byte, sofar: bytes)
    requires t.Valid() && k <= 4 && p + k <= t.End() && forall i :: p <= i < p + k ==> IsHexChar(t.source[i])
    ensures var l := t.StringUnicode(p, k, quote, sofar);
            l.Token? ==> p < l.end && t.source[l.end - 1] == quote
    decreases t.End() - p, 6 - k
  {
    hide Utf8, HexValue, Text.StringBody, Text.StringEscape;
    if k == 4 {
      EndsWithQuote(t, p + 4, quote, sofar + Utf8(HexValue(t.source[p..p + 4])));
    } else if IsHexChar(t.source[p + k]) {
      UnicodeEndsWithQuote(t, p, k + 1, quote, sofar);
    }
  }

  // Read between strings, a double-quoted string ends where the next one begins.
  lemma {:induction false} OutsideEndsLost(t: Text, m: seq<bool>, p: nat, sofar: bytes)
    requires Laid(t, m) && p <= t.End() && !Inside(m, p)
    ensures var l := t.StringBody(p, DQUOTE, sofar);
            l.Token? ==> Lost(t, m, l.end)
    decreases t.End() - p
  {
    if p < t.End() {
      assert Local(t.source, m, p);
      if t.source[p] == DQUOTE {
        LostBehindQuote(t, m, p);
      } else {
        OutsideEndsLost(t, m, p + 1, sofar + [t.source[p]]);
      }
    }
  }

  lemma LostBehindQuote(t: Text, m: seq<bool>, p: nat)
    requires Laid(t, m) && p < t.End() && t.source[p] != BACKSLASH && Inside(m, p + 1)
    ensures Lost(t, m, p + 1)
  {
  }

  // A string that a lost parser reads
  lemma StringStaysLost(t: Text, m: seq<bool>, p: nat)
    requires Lost(t, m, p) && IsQuote(t.source[p])
    ensures var l := t.StringBody(p + 1, t.source[p], []);
            l.Token? ==> p < l.end && Lost(t, m, l.end)
  {
    hide Text.StringBody;
    var c := t.source[p];
    assert Local(t.source, m, p);
    EndsWithQuote(t, p + 1, c, []);
    if c == DQUOTE {
      OutsideEndsLost(t, m, p + 1, []);
    } else if t.StringBody(p + 1, c, []).Token? {
      var q := t.StringBody(p + 1, c, []).end;
      assert Local(t.source, m, q - 1);
      LostBehindQuote(t, m, q - 1);
    }
  }

  // ---- values ----

  lemma ParseStaysLost(t: Text, m: seq<bool>, p: nat)
    requires Lost(t, m, p)
    ensures t.Valid() && p < t.End() && StaysLost(t, m, t.ParseAt(p))
    decreases |t.source| - p, 4
  {
    hide Lost, Text.ValueAt, Text.Look;
    Bounded(t, m, p);
    LookStaysLost(t, m, p);
    match t.Look(p)
    case Bad(_) =>
    case Token(_, q) => ValueStaysLost(t, m, q);
  }

  lemma ValueStaysLost(t: Text, m: seq<bool>, p: nat)
    requires Lost(t, m, p)
    ensures t.Valid() && p < t.End() && StaysLost(t, m, t.ValueAt(p))
    decreases |t.source| - p, 3
  {
    Bounded(t, m, p);
    hide Laid, Lost, Text.Members, Text.Elements, Text.FinishKeyword, Text.FinishString, Text.FinishNumber,
         Text.Keyword, Text.StringBody, Text.NumberEnd;
    var c := t.source[p];
    if c == LBRACE || c == LBRACKET {
      RunStaysLost(t, m, p, p + 1);
      if c == LBRACE {
        MembersStayLost(t, m, p + 1, []);
      } else {
        ElementsStayLost(t, m, p + 1, []);
      }
    } else if Lower(c) == LOWER_N {
      WordStaysLost(t, m, p, Null, NULL_TEXT, ErrNull);
    } else if IsQuote(c) {
      QuotedStaysLost(t, m, p);
    } else if Lower(c) == LOWER_T {
      WordStaysLost(t, m, p, Bool(true), TRUE_TEXT, ErrBoolean);
    } else if Lower(c) == LOWER_F {
      WordStaysLost(t, m, p, Bool(false), FALSE_TEXT, ErrBoolean);
    } else if IsDigit(c) || c == MINUS {
      NumberStaysLost(t, m, p);
    }
  }

  lemma {:induction false} KeywordIsRead(t: Text, p: nat, word: bytes, k: nat, mismatch: Error)
    requires t.Valid() && k <= |word| && p + k <= t.End()
    requires forall i :: 0 <= i < |word| ==> 0x61 <= word[i] <= 0x7A
    ensures t.Keyword(p, word, k, mismatch).Token? ==>
              forall i :: p + k <= i < p + |word| ==> t.source[i] != DQUOTE && t.source[i] != BACKSLASH
    decreases |word| - k
  {
    if k < |word| && t.source[p + k] != NUL && Lower(t.source[p + k]) == word[k] {
      KeywordIsRead(t, p, word, k + 1, mismatch);
    }
  }

  lemma WordStaysLost(t: Text, m: seq<bool>, p: nat, v: Value, word: bytes, mismatch: Error)
    requires Lost(t, m, p) && forall i :: 0 <= i < |word| ==> 0x61 <= word[i] <= 0x7A
    ensures t.Valid() && p < t.End() && StaysLost(t, m, t.FinishKeyword(v, t.Keyword(p, word, 0, mismatch)))
  {
    Bounded(t, m, p);
    hide Laid, Lost, Text.Keyword, Text.Finish;
    KeywordIsRead(t, p, word, 0, mismatch);
    if t.Keyword(p, word, 0, mismatch).Token? {
      RunStaysLost(t, m, p, p + |word|);
      FinishStaysLost(t, m, v, p + |word|);
    }
  }

  lemma NumberStaysLost(t: Text, m: seq<bool>, p: nat)
    requires Lost(t, m, p) && (IsDigit(t.source[p]) || t.source[p] == MINUS)
    ensures StaysLost(t, m, t.FinishNumber(p, t.NumberEnd(p + 1)))
  {
    Bounded(t, m, p);
    hide Laid, Lost, Text.NumberEnd, Text.NumberValue, Text.Finish;
    var q := t.NumberEnd(p + 1);
    assert forall i :: p <= i < q ==> IsNumberChar(t.source[i]);
    RunStaysLost(t, m, p, q);
    match t.NumberValue(t.source[p..q])
    case None =>
    case Some(v) => FinishStaysLost(t, m, v, q);
  }

  lemma QuotedStaysLost(t: Text, m: seq<bool>, p: nat)
    requires Lost(t, m, p) && IsQuote(t.source[p])
    ensures StaysLost(t, m, t.FinishString(t.StringBody(p + 1, t.source[p], [])))
  {
    Bounded(t, m, p);
    hide Laid, Lost, Text.StringBody, Text.Finish, CString;
    StringStaysLost(t, m, p);
    match t.StringBody(p + 1, t.source[p], [])
    case Bad(_) =>
    case Token(s, q) => FinishStaysLost(t, m, String(CString(s)), q);
  }

  // ---- arrays ----

  lemma ElementsStayLost(t: Text, m: seq<bool>, p: nat, elems: seq<Value>)
    requires Lost(t, m, p)
    ensures t.Valid() && p < t.End() && StaysLost(t, m, t.Elements(p, elems))
    decreases |t.source| - p, 6
  {
    Bounded(t, m, p);
    hide Laid, Lost, Text.Look, Text.ParseAt, Text.ElementSep, Text.Finish;
    LookStaysLost(t, m, p);
    match t.Look(p)
    case Bad(_) =>
    case Token(_, q) =>
      assert t.Elements(p, elems) == t.ElementsAt(q, elems);
      if t.source[q] == RBRACKET {
        RunStaysLost(t, m, q, q + 1);
        FinishStaysLost(t, m, Array(elems), q + 1);
      } else {
        ParseStaysLost(t, m, q);
        match t.ParseAt(q)
        case Err(_) =>
        case Overrun =>
        case Ok(v, r) =>
          if r < |t.source| {
            ElementSepStaysLost(t, m, r, elems + [v]);
          }
      }
  }

  lemma ElementSepStaysLost(t: Text, m: seq<bool>, p: nat, elems: seq<Value>)
    requires Lost(t, m, p)
    ensures t.Valid() && p < t.End() && StaysLost(t, m, t.ElementSep(p, elems))
    decreases |t.source| - p, 6
  {
    Bounded(t, m, p);
    hide Laid, Lost, Text.Look, Text.Elements, Text.Finish;
    LookStaysLost(t, m, p);
    match t.Look(p)
    case Bad(_) =>
    case Token(_, q) =>
      if t.source[q] == RBRACKET || t.source[q] == COMMA {
        RunStaysLost(t, m, q, q + 1);
        if t.source[q] == RBRACKET {
          FinishStaysLost(t, m, Array(elems), q + 1);
        } else {
          ElementsStayLost(t, m, q + 1, elems);
        }
      }
  }

  // ---- objects ----

  lemma MembersStayLost(t: Text, m: seq<bool>, p: nat, fields: seq<(bytes, Value)>)
    requires Lost(t, m, p)
    ensures t.Valid() && p < t.End() && StaysLost(t, m, t.Members(p, fields))
    decreases |t.source| - p, 6
  {
    Bounded(t, m, p);
    hide Laid, Lost, Text.Look, Text.StringBody, Text.MemberColon, Text.Finish, CString;
    LookStaysLost(t, m, p);
    match t.Look(p)
    case Bad(_) =>
    case Token(_, q) =>
      if t.source[q] == RBRACE {
        RunStaysLost(t, m, q, q + 1);
        FinishStaysLost(t, m, Object(fields), q + 1);
      } else if IsQuote(t.source[q]) {
        StringStaysLost(t, m, q);
        var l := t.StringBody(q + 1, t.source[q], []);
        assert t.Members(p, fields) == t.MembersAt(q, fields) == t.MemberName(l, fields);
        match l
        case Bad(_) =>
        case Token(s, r) => MemberColonStaysLost(t, m, r, CString(s), fields);
      }
  }

  lemma MemberColonStaysLost(t: Text, m: seq<bool>, p: nat, name: bytes, fields: seq<(bytes, Value)>)
    requires Lost(t, m, p)
    ensures t.Valid() && p < t.End() && StaysLost(t, m, t.MemberColon(p, name, fields))
    decreases |t.source| - p, 6
  {
    Bounded(t, m, p);
    hide Laid, Lost, Text.Look, Text.MemberValue;
    LookStaysLost(t, m, p);
    match t.Look(p)
    case Bad(_) =>
    case Token(_, q) =>
      if t.source[q] == COLON {
        RunStaysLost(t, m, q, q + 1);
        MemberValueStaysLost(t, m, q + 1, name, fields);
      }
  }

  lemma MemberValueStaysLost(t: Text, m: seq<bool>, p: nat, name: bytes, fields: seq<(bytes, Value)>)
    requires Lost(t, m, p)
    ensures t.Valid() && p < t.End() && StaysLost(t, m, t.MemberValue(p, name, fields))
    decreases |t.source| - p, 6
  {
    Bounded(t, m, p);
    hide Laid, Lost, Text.Look, Text.ParseAt, Text.MemberSep, Add;
    LookStaysLost(t, m, p);
    match t.Look(p)
    case Bad(_) =>
    case Token(_, q) =>
      assert t.MemberValue(p, name, fields) == t.MemberValueAt(q, name, fields);
      ParseStaysLost(t, m, q);
      match t.ParseAt(q)
      case Err(_) =>
      case Overrun =>
      case Ok(v, r) =>
        if r < |t.source| {
          MemberSepStaysLost(t, m, r, Add(fields, name, v));
        }
  }

  lemma MemberSepStaysLost(t: Text, m: seq<bool>, p: nat, fields: seq<(bytes, Value)>)
    requires Lost(t, m, p)
    ensures t.Valid() && p < t.End() && StaysLost(t, m, t.MemberSep(p, fields))
    decreases |t.source| - p, 6
  {
    Bounded(t, m, p);
    hide Laid, Lost, Text.Look, Text.Members, Text.Finish;
    LookStaysLost(t, m, p);
    match t.Look(p)
    case Bad(_) =>
    case Token(_, q) =>
      if t.source[q] == RBRACE || t.source[q] == COMMA {
        RunStaysLost(t, m, q, q + 1);
        if t.source[q] == RBRACE {
          FinishStaysLost(t, m, Object(fields), q + 1);
        } else {
          MembersStayLost(t, m, q + 1, fields);
        }
      }
  }
}
