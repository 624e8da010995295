/** Where the parser stays inside the text, and what it can return.

    A comment that the text ends in is the only way past the terminating NUL: the
    loop that skips it steps over the NUL, and a value already complete is still
    reported as read. Inside an array or object the next turn reads out of bounds. */
module Bounds {
  import opened Bytes
  import opened OrderedMap
  import opened Json
  import opened Reader
  import opened Printer

  // A scan that knows only strings and comments, from a position outside both. If the
  // text ends in a comment, it gives the slash behind which nothing but white space and
  // comments comes.
  function OpenComment(t: Text, p: nat): (m: Option<nat>)
    requires t.Valid() && p <= t.End()
    ensures m.Some? ==> p <= m.value < t.End() && t.source[m.value] == SLASH
    decreases t.End() - p
  {
    var c := t.source[p];
    if c == NUL then None
    else if IsQuote(c) then OpenCommentAfterString(t, p + 1, c)
    else if c == SLASH then
      match t.Comment(p + 1)
      case At(q) => OpenComment(t, q)
      case Unclosed => Some(p)
      case Malformed => None
    else OpenComment(t, p + 1)
  }

  function OpenCommentAfterString(t: Text, p: nat, quote: byte): (m: Option<nat>)
    requires t.Valid() && p <= t.End()
    ensures m.Some? ==> p < m.value < t.End() && t.source[m.value] == SLASH
    decreases t.End() - p
  {
    var c := t.source[p];
    if c == NUL then None
    else if c == quote then OpenComment(t, p + 1)
    else if c == BACKSLASH then
      if t.source[p + 1] == NUL then None else OpenCommentAfterString(t, p + 2, quote)
    else OpenCommentAfterString(t, p + 1, quote)
  }

  // A tree whose strings are C strings and whose objects have no key twice
  ghost predicate WellBuilt(v: Value) {
    match v
    case String(s) => NUL !in s
    case Array(elems) => forall e :: e in elems ==> WellBuilt(e)
    case Object(fields) => WellBuiltFields(fields) && forall f :: f in fields ==> WellBuilt(f.1)
    case _ => true
  }

  ghost predicate WellBuiltFields(fields: seq<(bytes, Value)>) {
    Unique(fields) && forall f :: f in fields ==> NUL !in f.0
  }

  // What holds of any reading that starts at p: a text that does not end in a comment
  // is not overrun, a value that ends inside the text leaves the scan as it was, and
  // the value is well built.
  ghost predicate Sound(t: Text, p: nat, r: Parse)
    requires t.Valid() && p <= t.End()
  {
    match r
    case Err(_) => true
    case Overrun => OpenComment(t, p).Some?
    case Ok(v, end) =>
      && WellBuilt(v) && end <= |t.source|
      && if end == |t.source| then OpenComment(t, p).Some? else OpenComment(t, p) == OpenComment(t, end)
  }

  // ---- tokens ----

  predicate IsPlain(c: byte) {
    c != NUL && c != SLASH && !IsQuote(c)
  }

  lemma {:induction false} PlainRun(t: Text, p: nat, q: nat)
    requires t.Valid() && p <= q <= t.End() && forall i :: p <= i < q ==> IsPlain(t.source[i])
    ensures OpenComment(t, p) == OpenComment(t, q)
    decreases q - p
  {
    if p < q {
      PlainRun(t, p + 1, q);
    }
  }

  lemma {:induction false} SkipKeepsScan(t: Text, p: nat)
    requires t.Valid() && p <= t.End()
    ensures match t.Skip(p)
            case At(q) => OpenComment(t, p) == OpenComment(t, q)
            case Unclosed => OpenComment(t, p).Some?
            case Malformed => true
    decreases t.End() - p
  {
    if IsSpace(t.source[p]) {
      SkipKeepsScan(t, p + 1);
    }
  }

  lemma {:induction false} StringKeepsScan(t: Text, p: nat, quote: byte, sofar: bytes)
    requires t.Valid() && p <= t.End() && IsQuote(quote)
    ensures match t.StringBody(p, quote, sofar)
            case Token(_, q) => OpenCommentAfterString(t, p, quote) == OpenComment(t, q)
            case Bad(_) => true
    decreases t.End() - p, 1
  {
    hide OpenComment, Utf8, HexValue, ControlChar;
    var c := t.source[p];
    if c == NUL || c == quote {
    } else if c == BACKSLASH {
      var e := t.source[p + 1];
      if e == LOWER_U {
        UnicodeKeepsScan(t, p + 2, 0, quote, sofar);
      } else if e == DQUOTE || e == BACKSLASH {
        StringKeepsScan(t, p + 2, quote, sofar + [e]);
      } else if IsControlEscape(e) {
        StringKeepsScan(t, p + 2, quote, sofar + [ControlChar(e)]);
      }
    } else {
      StringKeepsScan(t, p + 1, quote, sofar + [c]);
    }
  }

  lemma {:induction false} UnicodeKeepsScan(t: Text, p: nat, k: nat, quote: byte, sofar: bytes)
    requires t.Valid() && k <= 4 && p + k <= t.End() && IsQuote(quote)
    requires forall i :: p <= i < p + k ==> IsHexChar(t.source[i])
    ensures match t.StringUnicode(p, k, quote, sofar)
            case Token(_, q) => OpenCommentAfterString(t, p + k, quote) == OpenComment(t, q)
            case Bad(_) => true
    decreases t.End() - p, 5 - k
  {
    hide OpenComment, Utf8, HexValue;
    if k == 4 {
      StringKeepsScan(t, p + 4, quote, sofar + Utf8(HexValue(t.source[p..p + 4])));
    } else if IsHexChar(t.source[p + k]) {
      UnicodeKeepsScan(t, p, k + 1, quote, sofar);
    }
  }

  lemma {:induction false} KeywordIsPlain(t: Text, p: nat, word: bytes, k: nat, mismatch: Error)
    requires t.Valid() && k <= |word| && p + k <= t.End()
    requires forall i :: 0 <= i < |word| ==> 0x61 <= word[i] <= 0x7A
    ensures t.Keyword(p, word, k, mismatch).Token? ==>
              forall i :: p + k <= i < p + |word| ==> IsPlain(t.source[i])
    decreases |word| - k
  {
    if k < |word| && t.source[p + k] != NUL && Lower(t.source[p + k]) == word[k] {
      KeywordIsPlain(t, p, word, k + 1, mismatch);
    }
  }

  // ---- values ----

  lemma FinishIsSound(t: Text, p: nat, v: Value, q: nat)
    requires t.Valid() && p <= q <= t.End() && WellBuilt(v) && OpenComment(t, p) == OpenComment(t, q)
    ensures Sound(t, p, t.Finish(v, q))
  {
    SkipKeepsScan(t, q);
  }

  lemma LookKeepsScan(t: Text, p: nat)
    requires t.Valid() && p <= t.End()
    ensures t.Look(p).Token? ==> OpenComment(t, p) == OpenComment(t, t.Look(p).end)
  {
    SkipKeepsScan(t, p);
  }

  // The same result serves every start from which the scan ends alike.
  lemma SoundFrom(t: Text, p: nat, q: nat, r: Parse)
    requires t.Valid() && p <= t.End() && q <= t.End() && OpenComment(t, p) == OpenComment(t, q)
    requires Sound(t, q, r)
    ensures Sound(t, p, r)
  {
  }

  lemma ParseIsSound(t: Text, p: nat)
    requires t.Valid() && p <= t.End()
    ensures Sound(t, p, t.ParseAt(p))
    decreases t.End() - p, 4
  {
    hide Text.ValueAt, Text.Look, OpenComment, Sound;
    LookKeepsScan(t, p);
    match t.Look(p)
    case Bad(_) => ErrIsSound(t, p);
    case Token(_, q) =>
      ValueIsSound(t, q);
      SoundFrom(t, p, q, t.ValueAt(q));
  }

  lemma ErrIsSound(t: Text, p: nat)
    requires t.Valid() && p <= t.End()
    ensures forall e :: Sound(t, p, Err(e))
  {
  }

  lemma ValueIsSound(t: Text, p: nat)
    requires t.Valid() && p < t.End()
    ensures Sound(t, p, t.ValueAt(p))
    decreases t.End() - p, 3
  {
    hide Text.Members, Text.Elements, Text.FinishKeyword, Text.FinishString, Text.FinishNumber, Text.Keyword,
         Text.StringBody, Text.NumberEnd, OpenComment, Sound;
    var c := t.source[p];
    ErrIsSound(t, p);
    if c == LBRACE || c == LBRACKET {
      assert IsPlain(c);
      PlainRun(t, p, p + 1);
      if c == LBRACE {
        MembersAreSound(t, p + 1, []);
        SoundFrom(t, p, p + 1, t.Members(p + 1, []));
      } else {
        ElementsAreSound(t, p + 1, []);
        SoundFrom(t, p, p + 1, t.Elements(p + 1, []));
      }
    } else if Lower(c) == LOWER_N {
      WordIsSound(t, p, Null, NULL_TEXT, ErrNull);
    } else if IsQuote(c) {
      StringIsSound(t, p);
    } else if Lower(c) == LOWER_T {
      WordIsSound(t, p, Bool(true), TRUE_TEXT, ErrBoolean);
    } else if Lower(c) == LOWER_F {
      WordIsSound(t, p, Bool(false), FALSE_TEXT, ErrBoolean);
    } else if IsDigit(c) || c == MINUS {
      NumberIsSound(t, p);
    }
  }

  lemma WordIsSound(t: Text, p: nat, v: Value, word: bytes, mismatch: Error)
    requires t.Valid() && p < t.End() && (v.Null? || v.Bool?)
    requires forall i :: 0 <= i < |word| ==> 0x61 <= word[i] <= 0x7A
    ensures Sound(t, p, t.FinishKeyword(v, t.Keyword(p, word, 0, mismatch)))
  {
    hide Text.Keyword, Text.Finish, OpenComment, Sound;
    ErrIsSound(t, p);
    KeywordIsPlain(t, p, word, 0, mismatch);
    if t.Keyword(p, word, 0, mismatch).Token? {
      PlainRun(t, p, p + |word|);
      FinishIsSound(t, p, v, p + |word|);
    }
  }

  lemma NumberIsSound(t: Text, p: nat)
    requires t.Valid() && p < t.End() && (IsDigit(t.source[p]) || t.source[p] == MINUS)
    ensures Sound(t, p, t.FinishNumber(p, t.NumberEnd(p + 1)))
  {
    hide Text.NumberEnd, Text.Finish, OpenComment, Sound, ScanInt;
    var q := t.NumberEnd(p + 1);
    assert forall i :: p <= i < q ==> IsNumberChar(t.source[i]);
    assert forall c :: IsNumberChar(c) ==> IsPlain(c);
    PlainRun(t, p, q);
    ErrIsSound(t, p);
    match t.NumberValue(t.source[p..q])
    case None =>
    case Some(v) => FinishIsSound(t, p, v, q);
  }

  lemma StringIsSound(t: Text, p: nat)
    requires t.Valid() && p < t.End() && IsQuote(t.source[p])
    ensures Sound(t, p, t.FinishString(t.StringBody(p + 1, t.source[p], [])))
  {
    var c := t.source[p];
    assert OpenComment(t, p) == OpenCommentAfterString(t, p + 1, c);
    hide Text.StringBody, Text.Finish, OpenComment, OpenCommentAfterString, Sound, CString;
    ErrIsSound(t, p);
    StringKeepsScan(t, p + 1, c, []);
    match t.StringBody(p + 1, c, [])
    case Bad(_) =>
    case Token(s, q) => FinishIsSound(t, p, String(CString(s)), q);
  }

  lemma ElementsAreSound(t: Text, p: nat, elems: seq<Value>)
    requires t.Valid() && p <= t.End() && forall e :: e in elems ==> WellBuilt(e)
    ensures Sound(t, p, t.Elements(p, elems))
    decreases t.End() - p, 6
  {
    hide Text.ElementsAt, Text.Look, OpenComment, Sound, WellBuilt;
    LookKeepsScan(t, p);
    ErrIsSound(t, p);
    match t.Look(p)
    case Bad(_) =>
    case Token(_, q) =>
      ElementsAtAreSound(t, q, elems);
      SoundFrom(t, p, q, t.ElementsAt(q, elems));
  }

  lemma ElementsAtAreSound(t: Text, p: nat, elems: seq<Value>)
    requires t.Valid() && p < t.End() && forall e :: e in elems ==> WellBuilt(e)
    ensures Sound(t, p, t.ElementsAt(p, elems))
    decreases t.End() - p, 5
  {
    hide Text.ParseAt, Text.ElementSep, Text.Finish, OpenComment;
    if t.source[p] == RBRACKET {
      PlainRun(t, p, p + 1);
      FinishIsSound(t, p, Array(elems), p + 1);
    } else {
      ParseIsSound(t, p);
      match t.ParseAt(p)
      case Err(_) =>
      case Overrun =>
      case Ok(v, q) =>
        if q < |t.source| {
          ElementSepIsSound(t, q, elems + [v]);
          SoundFrom(t, p, q, t.ElementSep(q, elems + [v]));
        }
    }
  }

  lemma ElementSepIsSound(t: Text, p: nat, elems: seq<Value>)
    requires t.Valid() && p <= t.End() && forall e :: e in elems ==> WellBuilt(e)
    ensures Sound(t, p, t.ElementSep(p, elems))
    decreases t.End() - p, 6
  {
    hide Text.Elements, Text.Look, Text.Finish, OpenComment, Sound;
    LookKeepsScan(t, p);
    ErrIsSound(t, p);
    match t.Look(p)
    case Bad(_) =>
    case Token(_, q) =>
      if t.source[q] == RBRACKET || t.source[q] == COMMA {
        PlainRun(t, q, q + 1);
        if t.source[q] == RBRACKET {
          FinishIsSound(t, p, Array(elems), q + 1);
        } else {
          ElementsAreSound(t, q + 1, elems);
          SoundFrom(t, p, q + 1, t.Elements(q + 1, elems));
        }
      }
  }

  ghost predicate WellBuiltMembers(fields: seq<(bytes, Value)>) {
    WellBuiltFields(fields) && forall f :: f in fields ==> WellBuilt(f.1)
  }

  lemma AddIsWellBuilt(fields: seq<(bytes, Value)>, name: bytes, v: Value)
    requires WellBuiltMembers(fields) && NUL !in name && WellBuilt(v)
    ensures WellBuiltMembers(Add(fields, name, v))
  {
    hide WellBuilt;
    AddIsUpdate(fields, name, v, name);
    RemoveIsSubset(fields, name);
  }

  lemma {:induction false} RemoveIsSubset(fields: seq<(bytes, Value)>, name: bytes)
    ensures forall f :: f in Remove(fields, name) ==> f in fields
  {
    if fields != [] {
      RemoveIsSubset(fields[1..], name);
    }
  }

  lemma MembersAreSound(t: Text, p: nat, fields: seq<(bytes, Value)>)
    requires t.Valid() && p <= t.End() && WellBuiltMembers(fields)
    ensures Sound(t, p, t.Members(p, fields))
    decreases t.End() - p, 6
  {
    hide Text.MembersAt, Text.Look, OpenComment, Sound, WellBuilt, WellBuiltMembers;
    LookKeepsScan(t, p);
    ErrIsSound(t, p);
    match t.Look(p)
    case Bad(_) =>
    case Token(_, q) =>
      MembersAtAreSound(t, q, fields);
      SoundFrom(t, p, q, t.MembersAt(q, fields));
  }

  lemma MembersAtAreSound(t: Text, p: nat, fields: seq<(bytes, Value)>)
    requires t.Valid() && p < t.End() && WellBuiltMembers(fields)
    ensures Sound(t, p, t.MembersAt(p, fields))
    decreases t.End() - p, 5
  {
    var c := t.source[p];
    assert IsQuote(c) ==> OpenComment(t, p) == OpenCommentAfterString(t, p + 1, c);
    hide Text.StringBody, Text.MemberColon, Text.Finish, OpenComment, OpenCommentAfterString, Sound, CString;
    ErrIsSound(t, p);
    if c == RBRACE {
      PlainRun(t, p, p + 1);
      FinishIsSound(t, p, Object(fields), p + 1);
    } else if IsQuote(c) {
      StringKeepsScan(t, p + 1, c, []);
      match t.StringBody(p + 1, c, [])
      case Bad(_) =>
      case Token(s, q) =>
        MemberColonIsSound(t, q, CString(s), fields);
        SoundFrom(t, p, q, t.MemberColon(q, CString(s), fields));
    }
  }

  lemma MemberColonIsSound(t: Text, p: nat, name: bytes, fields: seq<(bytes, Value)>)
    requires t.Valid() && p <= t.End() && WellBuiltMembers(fields) && NUL !in name
    ensures Sound(t, p, t.MemberColon(p, name, fields))
    decreases t.End() - p, 6
  {
    hide Text.MemberValue, Text.Look, OpenComment, Sound, WellBuilt, WellBuiltMembers;
    LookKeepsScan(t, p);
    ErrIsSound(t, p);
    match t.Look(p)
    case Bad(_) =>
    case Token(_, q) =>
      if t.source[q] == COLON {
        PlainRun(t, q, q + 1);
        MemberValueIsSound(t, q + 1, name, fields);
        SoundFrom(t, p, q + 1, t.MemberValue(q + 1, name, fields));
      }
  }

  lemma MemberValueIsSound(t: Text, p: nat, name: bytes, fields: seq<(bytes, Value)>)
    requires t.Valid() && p <= t.End() && WellBuiltMembers(fields) && NUL !in name
    ensures Sound(t, p, t.MemberValue(p, name, fields))
    decreases t.End() - p, 6
  {
    hide Text.MemberSep, Text.Look, Text.ParseAt, OpenComment, WellBuilt, WellBuiltMembers, Add;
    LookKeepsScan(t, p);
    match t.Look(p)
    case Bad(_) =>
    case Token(_, q) =>
      ParseIsSound(t, q);
      match t.ParseAt(q)
      case Err(_) =>
      case Overrun =>
      case Ok(v, r) =>
        if r < |t.source| {
          AddIsWellBuilt(fields, name, v);
          MemberSepIsSound(t, r, Add(fields, name, v));
          SoundFrom(t, p, r, t.MemberSep(r, Add(fields, name, v)));
        }
  }

  lemma MemberSepIsSound(t: Text, p: nat, fields: seq<(bytes, Value)>)
    requires t.Valid() && p <= t.End() && WellBuiltMembers(fields)
    ensures Sound(t, p, t.MemberSep(p, fields))
    decreases t.End() - p, 6
  {
    hide Text.Members, Text.Look, Text.Finish, OpenComment, Sound;
    LookKeepsScan(t, p);
    ErrIsSound(t, p);
    match t.Look(p)
    case Bad(_) =>
    case Token(_, q) =>
      if t.source[q] == RBRACE || t.source[q] == COMMA {
        PlainRun(t, q, q + 1);
        if t.source[q] == RBRACE {
          FinishIsSound(t, p, Object(fields), q + 1);
        } else {
          MembersAreSound(t, q + 1, fields);
          SoundFrom(t, p, q + 1, t.Members(q + 1, fields));
        }
      }
  }

  // ---- what follows ----

  // A text that does not end in a comment is never overrun, at any depth.
  lemma ReadsInBounds(t: Text, p: nat)
    requires t.Valid() && p <= t.End() && OpenComment(t, p) == None
    ensures !t.ParseAt(p).Overrun?
    ensures t.ParseAt(p).Ok? ==> t.ParseAt(p).end <= t.End()
  {
    hide OpenComment, Text.ParseAt;
    ParseIsSound(t, p);
  }

  // "[[]//": the reading needs the byte behind the terminating NUL.
  lemma UnclosedCommentOverruns(scanf: Scanf)
    ensures var t := Text([LBRACKET, LBRACKET, RBRACKET, SLASH, SLASH, NUL], scanf);
            t.Valid() && t.ParseAt(0).Overrun?
  {
    var t := Text([LBRACKET, LBRACKET, RBRACKET, SLASH, SLASH, NUL], scanf);
    assert t.Comment(4) == t.LineComment(5) == Unclosed;
    assert t.Elements(2, []) == t.ElementsAt(2, []) == t.Finish(Array([]), 3) == Ok(Array([]), 6);
    assert t.ParseAt(1) == t.ValueAt(1) == t.Elements(2, []);
    assert t.Elements(1, []) == t.ElementsAt(1, []) == Overrun;
    assert t.ParseAt(0) == t.ValueAt(0) == t.Elements(1, []);
  }

  // No slash stands outside strings from p on.
  predicate NoSlashOutside(t: Text, p: nat)
    requires t.Valid() && p <= t.End()
    decreases t.End() - p
  {
    var c := t.source[p];
    if c == NUL then true
    else if IsQuote(c) then NoSlashAfterString(t, p + 1, c)
    else c != SLASH && NoSlashOutside(t, p + 1)
  }

  predicate NoSlashAfterString(t: Text, p: nat, quote: byte)
    requires t.Valid() && p <= t.End()
    decreases t.End() - p
  {
    var c := t.source[p];
    if c == NUL then true
    else if c == quote then NoSlashOutside(t, p + 1)
    else if c == BACKSLASH then t.source[p + 1] == NUL || NoSlashAfterString(t, p + 2, quote)
    else NoSlashAfterString(t, p + 1, quote)
  }

  lemma {:induction false} NoSlashNoComment(t: Text, p: nat)
    requires t.Valid() && p <= t.End()
    ensures NoSlashOutside(t, p) ==> OpenComment(t, p) == None
    ensures forall q :: IsQuote(q) && NoSlashAfterString(t, p, q) ==> OpenCommentAfterString(t, p, q) == None
    decreases t.End() - p
  {
    if p < t.End() {
      NoSlashNoComment(t, p + 1);
      if p + 1 < t.End() {
        NoSlashNoComment(t, p + 2);
      }
    }
  }

  // Such a text is read in bounds, at every depth, and a success ends within it.
  lemma ReadsInBoundsWithoutComments(t: Text, p: nat)
    requires t.Valid() && p <= t.End() && NoSlashOutside(t, p)
    ensures !t.ParseAt(p).Overrun?
    ensures t.ParseAt(p).Ok? ==> t.ParseAt(p).end <= t.End()
  {
    NoSlashNoComment(t, p);
    ReadsInBounds(t, p);
  }

  lemma {:induction false} NoSlashAtAll(t: Text, p: nat)
    requires t.Valid() && p <= t.End() && SLASH !in t.source
    ensures NoSlashOutside(t, p) && forall q :: NoSlashAfterString(t, p, q)
    decreases t.End() - p
  {
    if p < t.End() {
      NoSlashAtAll(t, p + 1);
      if p + 1 < t.End() {
        NoSlashAtAll(t, p + 2);
      }
    }
  }

  // Where arrays can be written, all texts over an alphabet are read in bounds exactly
  // when the slash is not in it.
  lemma AlphabetsReadInBounds(alphabet: set<byte>, scanf: Scanf)
    requires NUL !in alphabet && LBRACKET in alphabet && RBRACKET in alphabet
    ensures (forall s: bytes :: (forall c :: c in s ==> c in alphabet) ==>
               Text(s + [NUL], scanf).Valid() && !Text(s + [NUL], scanf).ParseAt(0).Overrun?)
            <==> SLASH !in alphabet
  {
    if SLASH !in alphabet {
      forall s: bytes | forall c :: c in s ==> c in alphabet
        ensures Text(s + [NUL], scanf).Valid() && !Text(s + [NUL], scanf).ParseAt(0).Overrun?
      {
        var t := Text(s + [NUL], scanf);
        assert forall i :: 0 <= i < |s| ==> t.source[i] in s;
        NoSlashAtAll(t, 0);
        ReadsInBoundsWithoutComments(t, 0);
      }
    } else {
      var s := [LBRACKET, LBRACKET, RBRACKET, SLASH, SLASH];
      UnclosedCommentOverruns(scanf);
      assert s + [NUL] == [LBRACKET, LBRACKET, RBRACKET, SLASH, SLASH, NUL];
      assert forall c :: c in s ==> c in alphabet;
    }
  }

  // Whatever the parser returns can be printed.
  lemma ParsedValuesAreWellBuilt(t: Text, p: nat)
    requires t.Valid() && p <= t.End() && t.ParseAt(p).Ok?
    ensures WellBuilt(t.ParseAt(p).value) && CStrings(t.ParseAt(p).value)
  {
    hide OpenComment, Text.ParseAt;
    ParseIsSound(t, p);
    WellBuiltIsCStrings(t.ParseAt(p).value);
  }

  lemma WellBuiltIsCStrings(v: Value)
    requires WellBuilt(v)
    ensures CStrings(v)
  {
  }
}
