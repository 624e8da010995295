/** Exactly which texts are overrun.

    Let the text end in comments. Cut them off and put a comma in their place: the text is
    overrun exactly if the shorter one, which ends in no comment, is refused at its end. Only
    where a value is complete inside an array or object does the comma ask for more. */
module Overrun {
  import opened Bytes
  import opened OrderedMap
  import opened Json
  import opened Reader
  import opened Bounds

  // The text up to m, and a comma
  function Cut(t: Text, m: nat): (u: Text)
    requires t.Valid() && m < t.End()
    ensures u.Valid() && u.End() == m + 1 && u.source[m] == COMMA && u.scanf == t.scanf
    ensures forall i :: 0 <= i < m ==> u.source[i] == t.source[i]
  {
    Text(t.source[..m] + [COMMA, NUL], t.scanf)
  }

  ghost predicate OpenFrom(t: Text, p: nat, m: nat) {
    t.Valid() && p <= m < t.End() && OpenComment(t, p) == Some(m)
  }

  // A position at which a gap has ended
  predicate Settled(t: Text, p: nat) {
    p < |t.source| && !IsSpace(t.source[p]) && t.source[p] != SLASH
  }

  // The results of reading the text and the cut text
  ghost predicate Matches(t: Text, m: nat, r: Parse, r': Parse) {
    match r
    case Overrun => r' == Err(ErrEof)
    case Err(_) => r'.Err? && r'.error != ErrEof
    case Ok(v, end) =>
      if end == |t.source| then r' == Ok(v, m)
      else r' == r && end < m && OpenFrom(t, end, m) && Settled(t, end)
  }

  // ---- gaps ----

  lemma {:induction false} SkipAgrees(t: Text, u: Text, p: nat, m: nat)
    requires t.Valid() && u.Valid() && m <= t.End() && m <= u.End() && p <= m
    requires forall i :: 0 <= i < m ==> u.source[i] == t.source[i]
    ensures t.Skip(p).At? && t.Skip(p).pos < m ==> u.Skip(p) == t.Skip(p)
    decreases m - p, 1
  {
    if p < m {
      if IsSpace(t.source[p]) {
        SkipAgrees(t, u, p + 1, m);
      } else if t.source[p] == SLASH {
        CommentAgrees(t, u, p + 1, m);
      }
    }
  }

  lemma {:induction false} CommentAgrees(t: Text, u: Text, p: nat, m: nat)
    requires t.Valid() && u.Valid() && m <= t.End() && m <= u.End() && p <= m
    requires forall i :: 0 <= i < m ==> u.source[i] == t.source[i]
    ensures t.Comment(p).At? && t.Comment(p).pos < m ==> u.Comment(p) == t.Comment(p)
    ensures t.BlockComment(p).At? && t.BlockComment(p).pos < m ==> u.BlockComment(p) == t.BlockComment(p)
    ensures t.BlockCommentStar(p).At? && t.BlockCommentStar(p).pos < m ==>
              u.BlockCommentStar(p) == t.BlockCommentStar(p)
    ensures t.LineComment(p).At? && t.LineComment(p).pos < m ==> u.LineComment(p) == t.LineComment(p)
    decreases m - p, 2
  {
    hide Text.Skip;
    if p < m {
      CommentAgrees(t, u, p + 1, m);
      SkipAgrees(t, u, p + 1, m);
    }
  }

  lemma {:induction false} SkipInCut(t: Text, p: nat, m: nat)
    requires OpenFrom(t, p, m)
    ensures match t.Skip(p)
            case At(q) => q < m && OpenFrom(t, q, m) && Cut(t, m).Skip(p) == At(q)
            case Unclosed => Cut(t, m).Skip(p) == At(m)
            case Malformed => false
    decreases m - p
  {
    hide Text.Comment, Cut;
    var u := Cut(t, m);
    if IsSpace(t.source[p]) {
      SkipInCut(t, p + 1, m);
    } else if t.source[p] == SLASH && p < m {
      CommentAgrees(t, u, p + 1, m);
    }
  }

  lemma LookInCut(t: Text, p: nat, m: nat)
    requires OpenFrom(t, p, m)
    ensures match t.Look(p)
            case Token(_, q) => q < m && OpenFrom(t, q, m) && Settled(t, q) && Cut(t, m).Look(p) == t.Look(p)
            case Bad(_) => Cut(t, m).Look(p) == Token((), m)
  {
    hide Text.Skip, Cut, OpenComment;
    SkipInCut(t, p, m);
  }

  lemma FinishInCut(t: Text, v: Value, q: nat, m: nat)
    requires OpenFrom(t, q, m)
    ensures Matches(t, m, t.Finish(v, q), Cut(t, m).Finish(v, q))
  {
    hide Text.Skip, Cut, OpenComment;
    SkipInCut(t, q, m);
  }

  // One plain character on
  lemma Onward(t: Text, p: nat, m: nat)
    requires OpenFrom(t, p, m) && IsPlain(t.source[p])
    ensures OpenFrom(t, p + 1, m)
  {
  }

  // ---- tokens ----

  lemma {:induction false} StringInCut(t: Text, p: nat, quote: byte, sofar: bytes, m: nat)
    requires t.Valid() && p <= m < t.End() && IsQuote(quote) && OpenCommentAfterString(t, p, quote) == Some(m)
    ensures Cut(t, m).StringBody(p, quote, sofar) == t.StringBody(p, quote, sofar)
    ensures match t.StringBody(p, quote, sofar)
            case Token(_, q) => OpenFrom(t, q, m)
            case Bad(e) => e != ErrEof
    decreases m - p, 1
  {
    hide OpenComment, Cut, Utf8, HexValue, ControlChar;
    var u, c := Cut(t, m), t.source[p];
    if c == quote {
    } else if c == BACKSLASH {
      var e := t.source[p + 1];
      if e == LOWER_U {
        UnicodeInCut(t, p + 2, 0, quote, sofar, m);
      } else if e == DQUOTE || e == BACKSLASH {
        StringInCut(t, p + 2, quote, sofar + [e], m);
      } else if IsControlEscape(e) {
        StringInCut(t, p + 2, quote, sofar + [ControlChar(e)], m);
      }
    } else {
      StringInCut(t, p + 1, quote, sofar + [c], m);
    }
  }

  lemma {:induction false} UnicodeInCut(t: Text, p: nat, k: nat, quote: byte, sofar: bytes, m: nat)
    requires t.Valid() && k <= 4 && p + k < m < t.End() && IsQuote(quote)
    requires OpenCommentAfterString(t, p + k, quote) == Some(m)
    requires forall i :: p <= i < p + k ==> IsHexChar(t.source[i])
    ensures forall i :: p <= i < p + k ==> IsHexChar(Cut(t, m).source[i])
    ensures Cut(t, m).StringUnicode(p, k, quote, sofar) == t.StringUnicode(p, k, quote, sofar)
    ensures match t.StringUnicode(p, k, quote, sofar)
            case Token(_, q) => OpenFrom(t, q, m)
            case Bad(e) => e != ErrEof
    decreases m - p, 5 - k
  {
    hide OpenComment, Cut, Utf8, HexValue;
    var u := Cut(t, m);
    if k == 4 {
      assert u.source[p..p + 4] == t.source[p..p + 4];
      StringInCut(t, p + 4, quote, sofar + Utf8(HexValue(t.source[p..p + 4])), m);
    } else if IsHexChar(t.source[p + k]) {
      UnicodeInCut(t, p, k + 1, quote, sofar, m);
    }
  }

  lemma {:induction false} KeywordInCut(t: Text, p: nat, word: bytes, k: nat, mismatch: Error, m: nat)
    requires t.Valid() && k <= |word| && p + k <= m < t.End() && t.source[m] == SLASH && mismatch != ErrEof
    requires forall i :: 0 <= i < |word| ==> 0x61 <= word[i] <= 0x7A
    ensures var l := t.Keyword(p, word, k, mismatch);
            && Cut(t, m).Keyword(p, word, k, mismatch) == l
            && if l.Token? then p + |word| <= m else l.error != ErrEof
    decreases |word| - k
  {
    hide Cut;
    if k < |word| && p + k < m && Lower(t.source[p + k]) == word[k] {
      KeywordInCut(t, p, word, k + 1, mismatch, m);
    }
  }

  lemma {:induction false} NumberEndInCut(t: Text, p: nat, m: nat)
    requires t.Valid() && p <= m < t.End() && t.source[m] == SLASH
    ensures t.NumberEnd(p) <= m && Cut(t, m).NumberEnd(p) == t.NumberEnd(p)
    decreases m - p
  {
    hide Cut;
    if p < m && IsNumberChar(t.source[p]) {
      NumberEndInCut(t, p + 1, m);
    }
  }

  lemma SliceInCut(t: Text, p: nat, q: nat, m: nat)
    requires t.Valid() && p <= q <= m < t.End()
    ensures Cut(t, m).source[p..q] == t.source[p..q]
  {
    hide Cut;
  }

  // ---- the comma in place of the comments ----

  // It is no value, no name and no colon.
  lemma CommaIsRefused(t: Text, m: nat)
    requires t.Valid() && m < t.End()
    ensures var u := Cut(t, m);
            && u.Look(m) == Token((), m)
            && u.ValueAt(m) == Err(ErrUnexpected)
            && (forall es :: u.ElementsAt(m, es) == Err(ErrUnexpected))
            && (forall fs :: u.MembersAt(m, fs) == Err(ErrObject))
            && (forall n, fs :: u.MemberColonAt(m, n, fs) == Err(ErrObject))
            && (forall n, fs :: u.MemberValueAt(m, n, fs) == Err(ErrUnexpected))
  {
    hide Cut;
    var u := Cut(t, m);
    assert u.ParseAt(m) == u.ValueAt(m) == Err(ErrUnexpected);
  }

  // Behind a value in an array or object it is a separator, and nothing follows.
  lemma CommaAsksForMore(t: Text, m: nat)
    requires t.Valid() && m < t.End()
    ensures var u := Cut(t, m);
            && (forall es :: u.ElementSep(m, es) == Err(ErrEof))
            && (forall fs :: u.MemberSep(m, fs) == Err(ErrEof))
  {
    hide Cut;
    var u := Cut(t, m);
    assert u.Look(m + 1) == Bad(ErrEof);
    forall es ensures u.ElementSep(m, es) == Err(ErrEof) {
      assert u.ElementSep(m, es) == u.ElementSepAt(m, es) == u.Elements(m + 1, es);
    }
    forall fs ensures u.MemberSep(m, fs) == Err(ErrEof) {
      assert u.MemberSep(m, fs) == u.MemberSepAt(m, fs) == u.Members(m + 1, fs);
    }
  }

  // ---- values ----

  lemma ParseInCut(t: Text, p: nat, m: nat)
    requires OpenFrom(t, p, m)
    ensures Matches(t, m, t.ParseAt(p), Cut(t, m).ParseAt(p))
    decreases m - p, 4
  {
    hide Cut, OpenFrom, Text.ValueAt, Text.Look, Text.Valid;
    Bounded(t, p, m);
    LookInCut(t, p, m);
    match t.Look(p)
    case Bad(_) => CommaIsRefused(t, m);
    case Token(_, q) => ValueInCut(t, q, m);
  }

  lemma Bounded(t: Text, p: nat, m: nat)
    requires OpenFrom(t, p, m)
    ensures t.Valid() && p <= m < t.End() && t.source[m] == SLASH
  {
  }

  lemma ValueInCut(t: Text, p: nat, m: nat)
    requires OpenFrom(t, p, m) && p < m && Settled(t, p)
    ensures Matches(t, m, t.ValueAt(p), Cut(t, m).ValueAt(p))
    decreases m - p, 3
  {
    hide Cut, OpenComment, Matches, Text.Members, Text.Elements, Text.FinishKeyword, Text.FinishString,
         Text.FinishNumber, Text.Keyword, Text.StringBody, Text.NumberEnd;
    var u, c := Cut(t, m), t.source[p];
    if c == LBRACE {
      Onward(t, p, m);
      MembersInCut(t, p + 1, [], m);
    } else if c == LBRACKET {
      Onward(t, p, m);
      ElementsInCut(t, p + 1, [], m);
    } else if Lower(c) == LOWER_N {
      WordInCut(t, p, Null, NULL_TEXT, ErrNull, m);
    } else if IsQuote(c) {
      QuotedInCut(t, p, m);
    } else if Lower(c) == LOWER_T {
      WordInCut(t, p, Bool(true), TRUE_TEXT, ErrBoolean, m);
    } else if Lower(c) == LOWER_F {
      WordInCut(t, p, Bool(false), FALSE_TEXT, ErrBoolean, m);
    } else if IsDigit(c) || c == MINUS {
      NumberInCut(t, p, m);
    } else {
      ErrorsMatch(t, m, ErrUnexpected);
    }
  }

  lemma ErrorsMatch(t: Text, m: nat, e: Error)
    requires e != ErrEof
    ensures Matches(t, m, Err(e), Err(e))
  {
  }

  lemma WordInCut(t: Text, p: nat, v: Value, word: bytes, mismatch: Error, m: nat)
    requires OpenFrom(t, p, m) && mismatch != ErrEof
    requires forall i :: 0 <= i < |word| ==> 0x61 <= word[i] <= 0x7A
    ensures var u := Cut(t, m);
            Matches(t, m, t.FinishKeyword(v, t.Keyword(p, word, 0, mismatch)),
                    u.FinishKeyword(v, u.Keyword(p, word, 0, mismatch)))
  {
    hide Cut, OpenComment, Text.Keyword, Text.Finish;
    KeywordInCut(t, p, word, 0, mismatch, m);
    if t.Keyword(p, word, 0, mismatch).Token? {
      KeywordIsPlain(t, p, word, 0, mismatch);
      PlainRun(t, p, p + |word|);
      FinishInCut(t, v, p + |word|, m);
    }
  }

  lemma NumberInCut(t: Text, p: nat, m: nat)
    requires OpenFrom(t, p, m) && p < m && (IsDigit(t.source[p]) || t.source[p] == MINUS)
    ensures var u := Cut(t, m);
            Matches(t, m, t.FinishNumber(p, t.NumberEnd(p + 1)), u.FinishNumber(p, u.NumberEnd(p + 1)))
  {
    hide Cut, OpenComment, Text.NumberEnd, Text.Finish, ScanInt;
    NumberEndInCut(t, p + 1, m);
    var q := t.NumberEnd(p + 1);
    SliceInCut(t, p, q, m);
    assert forall c :: IsNumberChar(c) ==> IsPlain(c);
    PlainRun(t, p, q);
    match t.NumberValue(t.source[p..q])
    case None =>
    case Some(v) => FinishInCut(t, v, q, m);
  }

  lemma QuotedInCut(t: Text, p: nat, m: nat)
    requires OpenFrom(t, p, m) && p < m && IsQuote(t.source[p])
    ensures var u, c := Cut(t, m), t.source[p];
            Matches(t, m, t.FinishString(t.StringBody(p + 1, c, [])), u.FinishString(u.StringBody(p + 1, c, [])))
  {
    var c := t.source[p];
    assert OpenComment(t, p) == OpenCommentAfterString(t, p + 1, c);
    hide Cut, OpenComment, OpenCommentAfterString, Text.StringBody, Text.Finish, CString;
    StringInCut(t, p + 1, c, [], m);
    match t.StringBody(p + 1, c, [])
    case Bad(_) =>
    case Token(s, q) => FinishInCut(t, String(CString(s)), q, m);
  }

  // ---- arrays ----

  lemma ElementsInCut(t: Text, p: nat, elems: seq<Value>, m: nat)
    requires OpenFrom(t, p, m)
    ensures Matches(t, m, t.Elements(p, elems), Cut(t, m).Elements(p, elems))
    decreases m - p, 6
  {
    hide Cut, OpenComment, Text.Look, Text.ParseAt, Text.ElementSep, Text.Finish, Text.Valid;
    LookInCut(t, p, m);
    match t.Look(p)
    case Bad(_) => CommaIsRefused(t, m);
    case Token(_, q) =>
      if t.source[q] == RBRACKET {
        Onward(t, q, m);
        FinishInCut(t, Array(elems), q + 1, m);
      } else {
        ParseInCut(t, q, m);
        CommaAsksForMore(t, m);
        assert t.Elements(p, elems) == t.ElementsAt(q, elems);
        assert Cut(t, m).Elements(p, elems) == Cut(t, m).ElementsAt(q, elems);
        match t.ParseAt(q)
        case Err(_) =>
        case Overrun =>
        case Ok(v, r) =>
          if r < |t.source| {
            ElementSepInCut(t, r, elems + [v], m);
          } else {
            assert Cut(t, m).ElementsAt(q, elems) == Cut(t, m).ElementSep(m, elems + [v]);
          }
      }
  }

  lemma SettledIsLooked(t: Text, p: nat, m: nat)
    requires OpenFrom(t, p, m) && Settled(t, p)
    ensures p < m && t.Look(p) == Token((), p) && Cut(t, m).Look(p) == Token((), p)
  {
    hide Cut, OpenComment;
  }

  lemma ElementSepInCut(t: Text, p: nat, elems: seq<Value>, m: nat)
    requires OpenFrom(t, p, m) && Settled(t, p)
    ensures Matches(t, m, t.ElementSep(p, elems), Cut(t, m).ElementSep(p, elems))
    decreases m - p, 6
  {
    hide Cut, OpenComment, Text.Look, Text.Elements, Text.Finish, Text.Valid;
    SettledIsLooked(t, p, m);
    if t.source[p] == RBRACKET {
      Onward(t, p, m);
      FinishInCut(t, Array(elems), p + 1, m);
    } else if t.source[p] == COMMA {
      Onward(t, p, m);
      ElementsInCut(t, p + 1, elems, m);
    }
  }

  // ---- objects ----

  lemma MembersInCut(t: Text, p: nat, fields: seq<(bytes, Value)>, m: nat)
    requires OpenFrom(t, p, m)
    ensures Matches(t, m, t.Members(p, fields), Cut(t, m).Members(p, fields))
    decreases m - p, 6
  {
    hide Cut, OpenComment, Text.Look, Text.StringBody, Text.MemberColon, Text.Finish, Text.Valid, CString;
    LookInCut(t, p, m);
    match t.Look(p)
    case Bad(_) => CommaIsRefused(t, m);
    case Token(_, q) =>
      if t.source[q] == RBRACE {
        Onward(t, q, m);
        FinishInCut(t, Object(fields), q + 1, m);
      } else if IsQuote(t.source[q]) {
        NameInCut(t, q, m);
        ReadName(t, p, q, fields);
        ReadName(Cut(t, m), p, q, fields);
        match t.StringBody(q + 1, t.source[q], [])
        case Bad(_) =>
        case Token(s, r) => MemberColonInCut(t, r, CString(s), fields, m);
      }
  }

  lemma ReadName(t: Text, p: nat, q: nat, fields: seq<(bytes, Value)>)
    requires t.Valid() && p <= q < t.End() && t.Look(p).Token? && t.Look(p).end == q && IsQuote(t.source[q])
    ensures t.Members(p, fields) == match t.StringBody(q + 1, t.source[q], [])
                                    case Bad(e) => Err(e)
                                    case Token(s, r) => t.MemberColon(r, CString(s), fields)
  {
    hide Text.Look, Text.StringBody, Text.MemberColon, CString;
    var l := t.StringBody(q + 1, t.source[q], []);
    assert t.Members(p, fields) == t.MembersAt(q, fields) == t.MemberName(l, fields);
  }

  lemma NameInCut(t: Text, p: nat, m: nat)
    requires OpenFrom(t, p, m) && p < m && IsQuote(t.source[p])
    ensures var l := t.StringBody(p + 1, t.source[p], []);
            && Cut(t, m).StringBody(p + 1, t.source[p], []) == l
            && match l case Token(_, q) => p < q && OpenFrom(t, q, m) case Bad(e) => e != ErrEof
  {
    hide Cut, Text.StringBody;
    StringInCut(t, p + 1, t.source[p], [], m);
  }

  lemma MemberColonInCut(t: Text, p: nat, name: bytes, fields: seq<(bytes, Value)>, m: nat)
    requires OpenFrom(t, p, m)
    ensures Matches(t, m, t.MemberColon(p, name, fields), Cut(t, m).MemberColon(p, name, fields))
    decreases m - p, 6
  {
    hide Cut, OpenComment, Text.Look, Text.MemberValue, Text.Valid;
    LookInCut(t, p, m);
    match t.Look(p)
    case Bad(_) => CommaIsRefused(t, m);
    case Token(_, q) =>
      if t.source[q] == COLON {
        Onward(t, q, m);
        MemberValueInCut(t, q + 1, name, fields, m);
      }
  }

  lemma MemberValueInCut(t: Text, p: nat, name: bytes, fields: seq<(bytes, Value)>, m: nat)
    requires OpenFrom(t, p, m)
    ensures Matches(t, m, t.MemberValue(p, name, fields), Cut(t, m).MemberValue(p, name, fields))
    decreases m - p, 6
  {
    hide Cut, OpenComment, Text.Look, Text.ParseAt, Text.MemberSep, Text.Valid, Add;
    LookInCut(t, p, m);
    match t.Look(p)
    case Bad(_) => CommaIsRefused(t, m);
    case Token(_, q) =>
      ParseInCut(t, q, m);
      CommaAsksForMore(t, m);
      assert t.MemberValue(p, name, fields) == t.MemberValueAt(q, name, fields);
      assert Cut(t, m).MemberValue(p, name, fields) == Cut(t, m).MemberValueAt(q, name, fields);
      match t.ParseAt(q)
      case Err(_) =>
      case Overrun =>
      case Ok(v, r) =>
        if r < |t.source| {
          MemberSepInCut(t, r, Add(fields, name, v), m);
        } else {
          assert Cut(t, m).MemberValueAt(q, name, fields) == Cut(t, m).MemberSep(m, Add(fields, name, v));
        }
  }

  lemma MemberSepInCut(t: Text, p: nat, fields: seq<(bytes, Value)>, m: nat)
    requires OpenFrom(t, p, m) && Settled(t, p)
    ensures Matches(t, m, t.MemberSep(p, fields), Cut(t, m).MemberSep(p, fields))
    decreases m - p, 6
  {
    hide Cut, OpenComment, Text.Look, Text.Members, Text.Finish, Text.Valid;
    SettledIsLooked(t, p, m);
    if t.source[p] == RBRACE {
      Onward(t, p, m);
      FinishInCut(t, Object(fields), p + 1, m);
    } else if t.source[p] == COMMA {
      Onward(t, p, m);
      MembersInCut(t, p + 1, fields, m);
    }
  }

  // ---- the theorem ----

  // A text is overrun exactly if it ends in comments and, with a comma in their place, is
  // refused at its end.
  lemma OverrunExactly(t: Text, p: nat)
    requires t.Valid() && p <= t.End()
    ensures t.ParseAt(p).Overrun? <==>
              match OpenComment(t, p)
              case None => false
              case Some(m) => Cut(t, m).ParseAt(p) == Err(ErrEof)
  {
    hide OpenComment, Text.ParseAt, Cut;
    match OpenComment(t, p)
    case None => ReadsInBounds(t, p);
    case Some(m) => ParseInCut(t, p, m);
  }

  // The shorter text can be read safely: it is never overrun itself.
  lemma CutIsReadInBounds(t: Text, p: nat, m: nat)
    requires t.Valid() && p <= t.End() && OpenComment(t, p) == Some(m)
    ensures !Cut(t, m).ParseAt(p).Overrun?
  {
    hide OpenComment, Text.ParseAt, Cut;
    ParseInCut(t, p, m);
  }
}
