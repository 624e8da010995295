/** The parser of json_tokener.c: one loop over an explicit state, a shared output
    buffer, and a recursive call for every nested value. */
module Tokener {
  import opened Bytes
  import opened OrderedMap
  import opened Json
  import opened Reader
  import PrintBuf

  datatype State =
    | Eatws | Start | Finish
    | NullWord | CommentStart | CommentBody | CommentEol | CommentEnd
    | InString | StringEscape | EscapeUnicode
    | BooleanWord | NumberWord
    | ArrayElem | ArraySep
    | ObjectOpen | FieldStart | FieldName | FieldEnd | ObjectValue | ObjectSep

  // The local variables of one activation of json_tokener_do_parse
  datatype Frame = Frame(
    state: State,
    saved: State,
    current: Value,
    fieldName: bytes,
    quote: byte,
    startOffset: nat,
    deemedDouble: bool)

  datatype Outcome =
    | Done(value: Value)
    | Failed(error: Error)
    | Overread  // the code reads past the terminating NUL: undefined in C

  datatype Next = Go(f: Frame) | Stop(o: Outcome)

  // Orders the transitions that consume no character.
  function Rank(s: State): nat {
    match s
    case NullWord | BooleanWord | NumberWord => 4
    case Eatws => 3
    case ObjectOpen => 2
    case Finish => 0
    case _ => 1
  }

  predicate EqualIgnoringCase(s: bytes, word: bytes) {
    |s| == |word| && forall i :: 0 <= i < |s| ==> Lower(s[i]) == word[i]
  }

  predicate InsideString(s: State) {
    s.InString? || s.FieldName? || s.StringEscape? || s.EscapeUnicode?
  }

  predicate IsContainer(v: Value) {
    v.Array? || v.Object?
  }

  ghost predicate Agrees(o: Outcome, target: Parse, pos: nat) {
    match target
    case Ok(v, end) => o == Done(v) && pos == end
    case Err(e) => o == Failed(e)
    case Overrun => o == Overread
  }

  // ---- what is still to be read in each state, in terms of the recursive reading ----

  ghost predicate WellSaved(s: State, current: Value) {
    match s
    case Start | Finish => true
    case ArrayElem | ArraySep => current.Array?
    case ObjectOpen | FieldEnd | ObjectValue | ObjectSep => current.Object?
    case _ => false
  }

  // In state s at a character that is neither white space nor a comment nor the NUL
  ghost function Resume(t: Text, s: State, current: Value, name: bytes, p: nat): Parse
    requires t.Valid() && p < t.End() && WellSaved(s, current)
  {
    match s
    case Start => t.ValueAt(p)
    case Finish => Ok(current, p)
    case ArrayElem => t.ElementsAt(p, current.elems)
    case ArraySep => t.ElementSepAt(p, current.elems)
    case ObjectOpen => t.MembersAt(p, current.fields)
    case FieldEnd => t.MemberColonAt(p, name, current.fields)
    case ObjectValue => t.MemberValueAt(p, name, current.fields)
    case ObjectSep => t.MemberSepAt(p, current.fields)
  }

  ghost function AfterGap(t: Text, s: State, current: Value, name: bytes, g: Gap): Parse
    requires t.Valid() && WellSaved(s, current) && (g.At? ==> g.pos <= t.End())
  {
    match g
    case At(q) =>
      if t.source[q] != NUL then Resume(t, s, current, name, q)
      else if s.Finish? then Ok(current, q)
      else Err(ErrEof)
    case Unclosed => if s.Finish? then Ok(current, |t.source|) else Err(ErrEof)
    case Malformed => Err(ErrComment)
  }

  // What the recursive reading does where the loop enters eatws with saved state s
  ghost function Entry(t: Text, s: State, current: Value, name: bytes, p: nat): Parse
    requires t.Valid() && p <= t.End() && WellSaved(s, current)
  {
    match s
    case Start => t.ParseAt(p)
    case Finish => t.Finish(current, p)
    case ArrayElem => t.Elements(p, current.elems)
    case ArraySep => t.ElementSep(p, current.elems)
    case ObjectOpen => t.Members(p, current.fields)
    case FieldEnd => t.MemberColon(p, name, current.fields)
    case ObjectValue => t.MemberValue(p, name, current.fields)
    case ObjectSep => t.MemberSep(p, current.fields)
  }

  lemma EntryIsAfterGap(t: Text, s: State, current: Value, name: bytes, p: nat)
    requires t.Valid() && p <= t.End() && WellSaved(s, current)
    ensures Entry(t, s, current, name, p) == AfterGap(t, s, current, name, t.Skip(p))
  {
  }

  // After a string read in state s
  ghost function AfterString(t: Text, s: State, current: Value, l: Lex<bytes>): Parse
    requires t.Valid() && (l.Token? ==> l.end <= t.End())
    requires s.InString? || (s.FieldName? && current.Object?)
  {
    if s.InString? then t.FinishString(l) else t.MemberName(l, current.fields)
  }

  ghost function Word(t: Text, f: Frame): bytes
    requires f.startOffset < |t.source|
  {
    if f.state.NullWord? then NULL_TEXT
    else if Lower(t.source[f.startOffset]) == LOWER_T then TRUE_TEXT
    else FALSE_TEXT
  }

  ghost predicate WordInv(t: Text, f: Frame, p: nat, target: Parse)
    requires t.Valid() && p <= t.End()
  {
    var start := f.startOffset;
    && start < p && f.saved.Start?
    && var word, k := Word(t, f), p - start - 1;
    && k < |word|
    && (forall i :: 0 <= i < k ==> Lower(t.source[start + i]) == word[i])
    && (f.state.BooleanWord? ==> Lower(t.source[start]) in {LOWER_T, LOWER_F})
    && target == t.FinishKeyword(
                   if f.state.NullWord? then Null else Bool(Lower(t.source[start]) == LOWER_T),
                   t.Keyword(start, word, k, if f.state.NullWord? then ErrNull else ErrBoolean))
  }

  ghost predicate NumberInv(t: Text, f: Frame, p: nat, target: Parse)
    requires t.Valid() && p <= t.End()
  {
    var start := f.startOffset;
    && start < p && f.saved.Start?
    && (f.deemedDouble <==> DOT in t.source[start..p] || LOWER_E in t.source[start..p])
    && target == t.FinishNumber(start, t.NumberEnd(p))
  }

  // The characters read so far are in the buffer up to startOffset and in the
  // source from there on.
  ghost predicate StringInv(t: Text, f: Frame, p: nat, content: bytes, target: Parse)
    requires t.Valid() && p <= t.End()
  {
    var start := f.startOffset;
    && IsQuote(f.quote) && !f.saved.Finish?
    && match f.state
       case InString | FieldName =>
         && start <= p
         && (f.state.FieldName? ==> f.current.Object?)
         && target == AfterString(t, f.state, f.current, t.StringBody(p, f.quote, content + t.source[start..p]))
       case StringEscape =>
         && start < p
         && (f.saved.InString? || (f.saved.FieldName? && f.current.Object?))
         && target == AfterString(t, f.saved, f.current, t.StringEscape(p, f.quote, content + t.source[start..p - 1]))
       case EscapeUnicode =>
         && start <= p < start + 4
         && (f.saved.InString? || (f.saved.FieldName? && f.current.Object?))
         && (forall i :: start <= i < p ==> IsHexChar(t.source[i]))
         && target == AfterString(t, f.saved, f.current, t.StringUnicode(start, p - start, f.quote, content))
       case _ => false
  }

  ghost predicate GapInv(t: Text, f: Frame, p: nat, target: Parse)
    requires t.Valid() && p <= t.End()
  {
    && WellSaved(f.saved, f.current)
    && match f.state
       case Eatws => target == Entry(t, f.saved, f.current, f.fieldName, p)
       case CommentStart => target == AfterGap(t, f.saved, f.current, f.fieldName, t.Comment(p))
       case CommentBody => target == AfterGap(t, f.saved, f.current, f.fieldName, t.BlockComment(p))
       case CommentEnd => target == AfterGap(t, f.saved, f.current, f.fieldName, t.BlockCommentStar(p))
       case CommentEol => target == AfterGap(t, f.saved, f.current, f.fieldName, t.LineComment(p))
       case _ => false
  }

  // The rest of the run from this configuration yields target.
  ghost predicate Inv(t: Text, f: Frame, p: nat, content: bytes, target: Parse)
    requires t.Valid()
  {
    if p > t.End() then p == |t.source| && target.Overrun?
    else
      match f.state
      case Eatws | CommentStart | CommentBody | CommentEnd | CommentEol => GapInv(t, f, p, target)
      case NullWord | BooleanWord => WordInv(t, f, p, target)
      case NumberWord => NumberInv(t, f, p, target)
      case InString | FieldName | StringEscape | EscapeUnicode => StringInv(t, f, p, content, target)
      case FieldStart =>
        p < t.End() && f.current.Object? && f.saved.ObjectOpen? && target == t.MembersAt(p, f.current.fields)
      case _ =>
        && p < t.End() && WellSaved(f.state, f.current) && f.saved == f.state
        && target == Resume(t, f.state, f.current, f.fieldName, p)
  }

  // One turn of the loop at position p that read c and went to p'. After the NUL
  // the loop is over and the verdict hangs on the two states.
  ghost predicate Turn(t: Text, f: Frame, p: nat, c: byte, next: Next, p': nat, target: Parse)
    requires t.Valid()
  {
    match next
    case Stop(o) => Agrees(o, target, p')
    case Go(f') =>
      && p <= p' <= |t.source|
      && (IsContainer(f'.current) ==> IsContainer(f.current) || p < p')
      && (c != NUL ==> p < p' || Rank(f'.state) < Rank(f.state))
      && (c == NUL ==> target == if f'.state.Finish? || f'.saved.Finish? then Ok(f'.current, p') else Err(ErrEof))
  }

  lemma StartInv(t: Text, f: Frame, p: nat, content: bytes)
    requires t.Valid() && p <= t.End() && f.state.Eatws? && f.saved.Start?
    ensures Inv(t, f, p, content, t.ParseAt(p))
  {
  }

  lemma AfterBadString(t: Text, s: State, current: Value, e: Error)
    requires t.Valid() && (s.InString? || (s.FieldName? && current.Object?))
    ensures AfterString(t, s, current, Bad(e)) == Err(e)
  {
  }

  lemma PastTheEnd(t: Text, f: Frame, p: nat, content: bytes, target: Parse)
    requires t.Valid() && p == |t.source| && Inv(t, f, p, content, target)
    ensures target.Overrun?
  {
  }

  // Where the first character of a value leads
  lemma StartMeaning(t: Text, f: Frame, p: nat, target: Parse)
    requires t.Valid() && p < t.End() && f.state.Start? && f.saved.Start? && target == t.ValueAt(p)
    ensures var c := t.source[p];
            if c == LBRACE then
              GapInv(t, f.(state := Eatws, saved := ObjectOpen, current := Object([])), p + 1, target)
            else if c == LBRACKET then
              GapInv(t, f.(state := Eatws, saved := ArrayElem, current := Array([])), p + 1, target)
            else if Lower(c) == LOWER_N then
              WordInv(t, f.(state := NullWord, startOffset := p), p + 1, target)
            else if IsQuote(c) then
              StringInv(t, f.(state := InString, quote := c, startOffset := p + 1), p + 1, [], target)
            else if Lower(c) == LOWER_T || Lower(c) == LOWER_F then
              WordInv(t, f.(state := BooleanWord, startOffset := p), p + 1, target)
            else if IsDigit(c) || c == MINUS then
              NumberInv(t, f.(state := NumberWord, deemedDouble := false, startOffset := p), p + 1, target)
            else target == Err(ErrUnexpected)
  {
    hide Text.Members, Text.Elements, Text.Keyword, Text.FinishString, Text.FinishKeyword, Text.FinishNumber,
         Text.NumberEnd, Text.StringBody;
    assert [] + t.source[p + 1..p + 1] == [];
    assert t.source[p..p + 1] == [t.source[p]];
  }

  // Where each escape leads, with the pending run flushed to the buffer. After '"' and
  // '\\' the next run starts at the escaped character itself.
  lemma EscapeMeaning(t: Text, f: Frame, p: nat, content: bytes, target: Parse)
    requires t.Valid() && p <= t.End()
    requires f.state.StringEscape? && StringInv(t, f, p, content, target)
    ensures f.startOffset < p && InsideString(f.saved)
    ensures var c, sofar := t.source[p], content + t.source[f.startOffset..p - 1];
            if c == DQUOTE || c == BACKSLASH then
              StringInv(t, f.(startOffset := p, state := f.saved), p + 1, sofar, target)
            else if IsControlEscape(c) then
              StringInv(t, f.(startOffset := p + 1, state := f.saved), p + 1, sofar + [ControlChar(c)], target)
            else if c == LOWER_U then
              StringInv(t, f.(startOffset := p + 1, state := EscapeUnicode), p + 1, sofar, target)
            else target == Err(ErrString)
  {
    hide AfterString, Text.StringBody, Text.StringUnicode, ControlChar;
    AfterBadString(t, f.saved, f.current, ErrString);
    var c, sofar := t.source[p], content + t.source[f.startOffset..p - 1];
    if c == DQUOTE || c == BACKSLASH {
      assert sofar + t.source[p..p + 1] == sofar + [c];
    } else if IsControlEscape(c) {
      assert sofar + [ControlChar(c)] + t.source[p + 1..p + 1] == sofar + [ControlChar(c)];
    }
  }

  // Where a character inside a string or field name leads
  lemma StringMeaning(t: Text, f: Frame, p: nat, content: bytes, target: Parse)
    requires t.Valid() && p <= t.End()
    requires (f.state.InString? || f.state.FieldName?) && StringInv(t, f, p, content, target)
    ensures f.startOffset <= p && IsQuote(f.quote)
    ensures var c, s := t.source[p], CString(content + t.source[f.startOffset..p]);
            if c == NUL then target == Err(ErrEof) && !f.saved.Finish?
            else if c == f.quote then
              GapInv(t, if f.state.InString? then f.(current := String(s), saved := Finish, state := Eatws)
                        else f.(fieldName := s, saved := FieldEnd, state := Eatws), p + 1, target)
            else if c == BACKSLASH then
              StringInv(t, f.(saved := f.state, state := StringEscape), p + 1, content, target)
            else StringInv(t, f, p + 1, content, target)
  {
    hide Text.Finish, CString, Text.StringEscape, Text.MemberColon;
    var c, start := t.source[p], f.startOffset;
    AfterBadString(t, f.state, f.current, ErrEof);
    assert t.source[start..p + 1] == t.source[start..p] + [c];
    assert content + t.source[start..p + 1] == content + t.source[start..p] + [c];
  }

  // Where a character leads that an array's syntax is due at: to the end, to a nested value
  // and what follows it, or behind a comma to the next value
  lemma ArrayMeaning(t: Text, f: Frame, p: nat, content: bytes, target: Parse)
    requires t.Valid() && p < t.End() && f.current.Array?
    requires f.state in {ArrayElem, ArraySep} && Inv(t, f, p, content, target)
    ensures var c, elems := t.source[p], f.current.elems;
            if c == RBRACKET then GapInv(t, f.(saved := Finish, state := Eatws), p + 1, target)
            else if f.state.ArraySep? then
              if c == COMMA then GapInv(t, f.(saved := ArrayElem, state := Eatws), p + 1, target)
              else target == Err(ErrArray)
            else match t.ParseAt(p)
              case Ok(v, q) =>
                if q == |t.source| then target.Overrun?
                else GapInv(t, f.(current := Array(elems + [v]), saved := ArraySep, state := Eatws), q, target)
              case r => target == r
  {
    hide Text.Finish, Text.ParseAt, Text.Elements, Text.ElementSep;
  }

  // Where a character leads that an object's syntax is due at
  lemma ObjectMeaning(t: Text, f: Frame, p: nat, content: bytes, target: Parse)
    requires t.Valid() && p < t.End() && f.current.Object?
    requires f.state in {ObjectOpen, FieldStart, FieldEnd, ObjectSep} && Inv(t, f, p, content, target)
    ensures var c := t.source[p];
            if f.state.ObjectOpen? then Inv(t, f.(state := FieldStart, startOffset := p), p, content, target)
            else if f.state.FieldEnd? then
              if c == COLON then GapInv(t, f.(saved := ObjectValue, state := Eatws), p + 1, target)
              else target == Err(ErrObject)
            else if c == RBRACE then GapInv(t, f.(saved := Finish, state := Eatws), p + 1, target)
            else if f.state.FieldStart? && IsQuote(c) then
              StringInv(t, f.(state := FieldName, quote := c, startOffset := p + 1), p + 1, [], target)
            else if f.state.ObjectSep? && c == COMMA then
              GapInv(t, f.(saved := ObjectOpen, state := Eatws), p + 1, target)
            else target == Err(ErrObject)
  {
    hide WordInv, NumberInv, Text.Finish, Text.StringBody, Text.Skip, Text.MemberColon, Text.MemberValue, Text.Members;
    assert [] + t.source[p + 1..p + 1] == [];
  }

  lemma FinishAtEnd(t: Text, v: Value)
    requires t.Valid()
    ensures t.Finish(v, t.End()) == Ok(v, t.End())
  {
  }

  // No text begins like both "true" and "false".
  lemma FirstCharacterDecides(seen: bytes, k: nat)
    requires 0 < k <= |seen|
    ensures k <= 4 && Lower(seen[0]) != LOWER_T ==> !EqualIgnoringCase(seen, TRUE_TEXT[..k])
    ensures k <= 5 && Lower(seen[0]) != LOWER_F ==> !EqualIgnoringCase(seen, FALSE_TEXT[..k])
  {
    assert k <= 4 ==> TRUE_TEXT[..k][0] == LOWER_T;
    assert k <= 5 ==> FALSE_TEXT[..k][0] == LOWER_F;
  }

  lemma NumberEndStep(t: Text, p: nat)
    requires t.Valid() && p <= t.End()
    ensures t.NumberEnd(p) == if IsNumberChar(t.source[p]) then t.NumberEnd(p + 1) else p
  {
  }

  // The comparison of the k characters seen decides on the last of them.
  lemma KeywordStep(t: Text, p: nat, word: bytes, k: nat, mismatch: Error)
    requires t.Valid() && 0 < k <= |word| && p + k <= t.End()
    requires forall i :: 0 <= i < k - 1 ==> Lower(t.source[p + i]) == word[i]
    ensures t.Keyword(p, word, k - 1, mismatch) ==
            if !EqualIgnoringCase(t.source[p..p + k], word[..k]) then Bad(mismatch)
            else t.Keyword(p, word, k, mismatch)
    ensures EqualIgnoringCase(t.source[p..p + k], word[..k]) ==>
            forall i :: 0 <= i < k ==> Lower(t.source[p + i]) == word[i]
    ensures t.Keyword(p, word, k, mismatch) ==
            if k == |word| then Token((), p + k)
            else if t.source[p + k] == NUL then Bad(ErrEof)
            else t.Keyword(p, word, k, mismatch)
  {
    assert t.source[p..p + k][k - 1] == t.source[p + k - 1];
    if Lower(t.source[p + k - 1]) == word[k - 1] {
      assert EqualIgnoringCase(t.source[p..p + k], word[..k]);
    }
  }

  // Where the comparison of the characters of a word seen so far leads
  lemma WordMeaning(t: Text, f: Frame, p: nat, target: Parse)
    requires t.Valid() && p <= t.End() && (f.state.NullWord? || f.state.BooleanWord?) && WordInv(t, f, p, target)
    ensures f.startOffset < p && f.saved.Start? && p - f.startOffset <= |Word(t, f)|
    ensures f.state.BooleanWord? ==> Lower(t.source[f.startOffset]) in {LOWER_T, LOWER_F}
    ensures var c, k, word := t.source[p], p - f.startOffset, Word(t, f);
            var v := if f.state.NullWord? then Null else Bool(Lower(t.source[f.startOffset]) == LOWER_T);
            if !EqualIgnoringCase(t.source[f.startOffset..p], word[..k]) then
              target == Err(if f.state.NullWord? then ErrNull else ErrBoolean)
            else if k == |word| then
              && GapInv(t, f.(current := v, saved := Finish, state := Eatws), p, target)
              && (c == NUL ==> target == Ok(v, p))
            else if c == NUL then target == Err(ErrEof)
            else WordInv(t, f, p + 1, target)
  {
    hide Text.Finish, Text.Keyword, Text.Skip, EqualIgnoringCase;
    var v := if f.state.NullWord? then Null else Bool(Lower(t.source[f.startOffset]) == LOWER_T);
    KeywordStep(t, f.startOffset, Word(t, f), p - f.startOffset, if f.state.NullWord? then ErrNull else ErrBoolean);
    FinishAtEnd(t, v);
  }

  // Where a character in or behind a number leads
  lemma NumberCharMeaning(t: Text, f: Frame, p: nat, target: Parse)
    requires t.Valid() && p <= t.End() && f.state.NumberWord? && NumberInv(t, f, p, target)
    ensures f.startOffset < p && f.saved.Start?
    ensures var c, literal := t.source[p], t.source[f.startOffset..p];
            && (f.deemedDouble <==> DOT in literal || LOWER_E in literal)
            && if IsNumberChar(c) then
                 NumberInv(t, f.(deemedDouble := f.deemedDouble || c == DOT || c == LOWER_E), p + 1, target)
               else match t.NumberValue(literal)
                 case None => target == Err(ErrNumber)
                 case Some(v) =>
                   && GapInv(t, f.(current := v, saved := Finish, state := Eatws), p, target)
                   && (c == NUL ==> target == Ok(v, p))
  {
    hide Text.Finish, Text.NumberEnd, ScanInt, Text.Skip;
    var c, start := t.source[p], f.startOffset;
    NumberEndStep(t, p);
    assert t.source[start..p + 1] == t.source[start..p] + [c];
    if c == NUL && t.NumberValue(t.source[start..p]).Some? {
      FinishAtEnd(t, t.NumberValue(t.source[start..p]).value);
    }
  }

  class Tokener {
    const text: Text
    const pb: PrintBuf.PrintBuf
    var pos: nat

    ghost predicate Valid()
      reads this, pb, pb.buf
    {
      text.Valid() && pb.Valid() && pos <= |text.source|
    }

    constructor (text: Text)
      requires text.Valid()
      ensures Valid() && fresh(pb) && fresh(pb.buf)
      ensures this.text == text && pos == 0
    {
      this.text := text;
      pos := 0;
      pb := new PrintBuf.PrintBuf();
    }

    // json_tokener_parse
    static method Parse(text: Text) returns (o: Outcome, end: nat)
      requires text.Valid()
      ensures Agrees(o, text.ParseAt(0), end)
    {
      var tok := new Tokener(text);
      o := tok.DoParse();
      end := tok.pos;
    }

    // json_tokener_do_parse
    method DoParse() returns (o: Outcome)
      requires Valid() && pos <= text.End()
      modifies this, pb, pb.buf
      ensures Valid() && (pb.buf == old(pb.buf) || fresh(pb.buf))
      ensures Agrees(o, text.ParseAt(old(pos)), pos)
      decreases |text.source| - pos, 1
    {
      hide PrintBuf.PrintBuf.Contents, PrintBuf.PrintBuf.Valid, Inv, Text.ParseAt;
      ghost var target := text.ParseAt(pos);
      var f := Frame(Eatws, Start, Null, [], NUL, 0, false);
      StartInv(text, f, pos, pb.Contents());
      while true
        invariant Valid() && (pb.buf == old(pb.buf) || fresh(pb.buf))
        invariant old(pos) <= pos && (IsContainer(f.current) ==> old(pos) < pos)
        invariant Inv(text, f, pos, pb.Contents(), target)
        decreases |text.source| - pos, Rank(f.state)
      {
        if pos == |text.source| {
          PastTheEnd(text, f, pos, pb.Contents(), target);
          return Overread;
        }
        var c := text.source[pos];
        var next := Step(f, c, target);
        match next {
          case Stop(r) => return r;
          case Go(f') => f := f';
        }
        if c == NUL {
          break;
        }
      }
      o := if !f.state.Finish? && !f.saved.Finish? then Failed(ErrEof) else Done(f.current);
    }

    // The switch over the states
    method Step(f: Frame, c: byte, ghost target: Parse) returns (next: Next)
      requires Valid() && pos <= text.End() && c == text.source[pos]
      requires Inv(text, f, pos, pb.Contents(), target)
      modifies this, pb, pb.buf
      ensures Valid() && (pb.buf == old(pb.buf) || fresh(pb.buf))
      ensures Turn(text, f, old(pos), c, next, pos, target)
      ensures next.Go? && c != NUL ==> Inv(text, next.f, pos, pb.Contents(), target)
      decreases |text.source| - pos, if IsContainer(f.current) then 3 else 0
    {
      hide PrintBuf.PrintBuf.Contents, PrintBuf.PrintBuf.Valid,
           WordInv, NumberInv, StringInv, GapInv, Text.ValueAt, Text.ElementsAt, Text.ElementSepAt,
           Text.MembersAt, Text.MemberColonAt, Text.MemberValueAt, Text.MemberSepAt;
      match f.state {
        case Eatws => next := StepEatws(f, c, target);
        case CommentStart | CommentBody | CommentEnd | CommentEol => next := StepComment(f, c, target);
        case Start => next := StepStart(f, c, target);
        case Finish => next := Stop(Done(f.current));
        case NullWord => next := StepNull(f, c, target);
        case BooleanWord => next := StepBoolean(f, c, target);
        case NumberWord => next := StepNumber(f, c, target);
        case InString | FieldName => next := StepString(f, c, target);
        case StringEscape => next := StepEscape(f, c, target);
        case EscapeUnicode => next := StepUnicode(f, c, target);
        case ArrayElem | ArraySep => next := StepArray(f, c, target);
        case ObjectValue => next := StepObjectValue(f, c, target);
        case _ => next := StepObject(f, c, target);
      }
    }

    method StepEatws(f: Frame, c: byte, ghost target: Parse) returns (next: Next)
      requires Valid() && pos <= text.End() && c == text.source[pos]
      requires f.state.Eatws? && GapInv(text, f, pos, target)
      modifies this`pos
      ensures Valid()
      ensures Turn(text, f, old(pos), c, next, pos, target)
      ensures next.Go? && c != NUL ==> Inv(text, next.f, pos, pb.Contents(), target)
    {
      hide PrintBuf.PrintBuf.Contents, PrintBuf.PrintBuf.Valid, Resume, Entry, WordInv, NumberInv, StringInv,
           Text.Comment;
      EntryIsAfterGap(text, f.saved, f.current, f.fieldName, pos);
      if IsSpace(c) {
        pos := pos + 1;
        next := Go(f);
        EntryIsAfterGap(text, f.saved, f.current, f.fieldName, pos);
      } else if c == SLASH {
        next := Go(f.(state := CommentStart, startOffset := pos));
        pos := pos + 1;
      } else {
        next := Go(f.(state := f.saved));
      }
    }

    method StepComment(f: Frame, c: byte, ghost target: Parse) returns (next: Next)
      requires Valid() && pos <= text.End() && c == text.source[pos]
      requires !f.state.Eatws? && GapInv(text, f, pos, target)
      modifies this`pos
      ensures Valid()
      ensures Turn(text, f, old(pos), c, next, pos, target)
      ensures next.Go? && c != NUL ==> Inv(text, next.f, pos, pb.Contents(), target)
    {
      hide PrintBuf.PrintBuf.Contents, PrintBuf.PrintBuf.Valid, Resume, Entry, WordInv, NumberInv, StringInv, Text.Skip;
      match f.state {
        case CommentStart =>
          if c == STAR {
            next := Go(f.(state := CommentBody));
          } else if c == SLASH {
            next := Go(f.(state := CommentEol));
          } else {
            return Stop(Failed(ErrComment));
          }
        case CommentBody => next := Go(if c == STAR then f.(state := CommentEnd) else f);
        case CommentEol => next := Go(if c == LF then f.(state := Eatws) else f);
        case CommentEnd => next := Go(f.(state := if c == SLASH then Eatws else CommentBody));
      }
      pos := pos + 1;
      if c != NUL {
        EntryIsAfterGap(text, f.saved, f.current, f.fieldName, pos);
      }
    }

    method StepStart(f: Frame, c: byte, ghost target: Parse) returns (next: Next)
      requires Valid() && pos < text.End() && c == text.source[pos]
      requires f.state.Start? && f.saved.Start? && target == text.ValueAt(pos)
      modifies this`pos, pb, pb.buf
      ensures Valid() && (pb.buf == old(pb.buf) || fresh(pb.buf))
      ensures Turn(text, f, old(pos), c, next, pos, target)
      ensures next.Go? && c != NUL ==> Inv(text, next.f, pos, pb.Contents(), target)
    {
      hide PrintBuf.PrintBuf.Contents, PrintBuf.PrintBuf.Valid, GapInv, WordInv, NumberInv, StringInv, Text.ValueAt;
      StartMeaning(text, f, pos, target);
      if c == LBRACE {
        next := Go(f.(state := Eatws, saved := ObjectOpen, current := Object([])));
        pos := pos + 1;
      } else if c == LBRACKET {
        next := Go(f.(state := Eatws, saved := ArrayElem, current := Array([])));
        pos := pos + 1;
      } else if Lower(c) == LOWER_N {
        next := Go(f.(state := NullWord, startOffset := pos));
        pos := pos + 1;
      } else if IsQuote(c) {
        pb.Reset();
        pos := pos + 1;
        next := Go(f.(state := InString, quote := c, startOffset := pos));
      } else if Lower(c) == LOWER_T || Lower(c) == LOWER_F {
        next := Go(f.(state := BooleanWord, startOffset := pos));
        pos := pos + 1;
      } else if IsDigit(c) || c == MINUS {
        next := Go(f.(state := NumberWord, deemedDouble := false, startOffset := pos));
        pos := pos + 1;
      } else {
        next := Stop(Failed(ErrUnexpected));
      }
    }

    // In states null and boolean the word is compared again from its first
    // character every time one more has been read.
    method StepNull(f: Frame, c: byte, ghost target: Parse) returns (next: Next)
      requires Valid() && pos <= text.End() && c == text.source[pos]
      requires f.state.NullWord? && WordInv(text, f, pos, target)
      modifies this`pos
      ensures Valid()
      ensures Turn(text, f, old(pos), c, next, pos, target)
      ensures next.Go? && c != NUL ==>
                && pos <= text.End()
                && if next.f.state.Eatws? then GapInv(text, next.f, pos, target)
                   else next.f.state.NullWord? && WordInv(text, next.f, pos, target)
    {
      hide PrintBuf.PrintBuf.Contents, PrintBuf.PrintBuf.Valid, GapInv, WordInv, EqualIgnoringCase;
      WordMeaning(text, f, pos, target);
      var k := pos - f.startOffset;
      if !EqualIgnoringCase(text.source[f.startOffset..pos], NULL_TEXT[..k]) {
        return Stop(Failed(ErrNull));
      }
      if k == 4 {
        next := Go(f.(current := Null, saved := Finish, state := Eatws));
      } else {
        pos := pos + 1;
        next := Go(f);
      }
    }

    method StepBoolean(f: Frame, c: byte, ghost target: Parse) returns (next: Next)
      requires Valid() && pos <= text.End() && c == text.source[pos]
      requires f.state.BooleanWord? && WordInv(text, f, pos, target)
      modifies this`pos
      ensures Valid()
      ensures Turn(text, f, old(pos), c, next, pos, target)
      ensures next.Go? && c != NUL ==>
                && pos <= text.End()
                && if next.f.state.Eatws? then GapInv(text, next.f, pos, target)
                   else next.f.state.BooleanWord? && WordInv(text, next.f, pos, target)
    {
      hide PrintBuf.PrintBuf.Contents, PrintBuf.PrintBuf.Valid, GapInv, WordInv, EqualIgnoringCase;
      WordMeaning(text, f, pos, target);
      var k := pos - f.startOffset;
      var seen := text.source[f.startOffset..pos];
      assert seen[0] == text.source[f.startOffset];
      FirstCharacterDecides(seen, k);
      if k <= 4 && EqualIgnoringCase(seen, TRUE_TEXT[..k]) {
        if k == 4 {
          next := Go(f.(current := Bool(true), saved := Finish, state := Eatws));
        } else {
          pos := pos + 1;
          next := Go(f);
        }
      } else if EqualIgnoringCase(seen, FALSE_TEXT[..k]) {
        if k == 5 {
          next := Go(f.(current := Bool(false), saved := Finish, state := Eatws));
        } else {
          pos := pos + 1;
          next := Go(f);
        }
      } else {
        next := Stop(Failed(ErrBoolean));
      }
    }

    method StepNumber(f: Frame, c: byte, ghost target: Parse) returns (next: Next)
      requires Valid() && pos <= text.End() && c == text.source[pos]
      requires f.state.NumberWord? && NumberInv(text, f, pos, target)
      modifies this`pos
      ensures Valid()
      ensures Turn(text, f, old(pos), c, next, pos, target)
      ensures next.Go? && c != NUL ==>
                && pos <= text.End()
                && if next.f.state.Eatws? then GapInv(text, next.f, pos, target)
                   else next.f.state.NumberWord? && NumberInv(text, next.f, pos, target)
    {
      hide PrintBuf.PrintBuf.Contents, PrintBuf.PrintBuf.Valid, GapInv, NumberInv, ScanInt;
      NumberCharMeaning(text, f, pos, target);
      if !IsNumberChar(c) {
        var tmp := text.source[f.startOffset..pos];
        var n := ScanInt(tmp);
        if !f.deemedDouble && n.Some? {
          var i := if -0x8000_0000 <= n.value < 0x8000_0000 then n.value else text.scanf.outOfRange(n.value);
          next := Go(f.(current := Int(i), saved := Finish, state := Eatws));
        } else if f.deemedDouble && text.scanf.readsDouble(tmp) {
          next := Go(f.(current := Double(tmp), saved := Finish, state := Eatws));
        } else {
          next := Stop(Failed(ErrNumber));
        }
      } else {
        next := Go(f.(deemedDouble := f.deemedDouble || c == DOT || c == LOWER_E));
        pos := pos + 1;
      }
    }

    // States string and object_field: characters are copied in runs.
    method StepString(f: Frame, c: byte, ghost target: Parse) returns (next: Next)
      requires Valid() && pos <= text.End() && c == text.source[pos]
      requires (f.state.InString? || f.state.FieldName?) && StringInv(text, f, pos, pb.Contents(), target)
      modifies this`pos, pb, pb.buf
      ensures Valid() && (pb.buf == old(pb.buf) || fresh(pb.buf))
      ensures Turn(text, f, old(pos), c, next, pos, target)
      ensures next.Go? && c != NUL ==>
                && pos <= text.End()
                && if next.f.state.Eatws? then GapInv(text, next.f, pos, target)
                   else InsideString(next.f.state) && StringInv(text, next.f, pos, pb.Contents(), target)
    {
      hide PrintBuf.PrintBuf.Contents, PrintBuf.PrintBuf.Valid, GapInv, StringInv, CString;
      StringMeaning(text, f, pos, pb.Contents(), target);
      if c == f.quote {
        pb.MemAppend(text.source[f.startOffset..pos]);
        var s := CString(pb.Contents());
        if f.state.InString? {
          next := Go(f.(current := String(s), saved := Finish, state := Eatws));
        } else {
          next := Go(f.(fieldName := s, saved := FieldEnd, state := Eatws));
        }
      } else if c == BACKSLASH {
        next := Go(f.(saved := f.state, state := StringEscape));
      } else {
        next := Go(f);
      }
      pos := pos + 1;
    }

    method StepEscape(f: Frame, c: byte, ghost target: Parse) returns (next: Next)
      requires Valid() && pos <= text.End() && c == text.source[pos]
      requires f.state.StringEscape? && StringInv(text, f, pos, pb.Contents(), target)
      modifies this`pos, pb, pb.buf
      ensures Valid() && (pb.buf == old(pb.buf) || fresh(pb.buf))
      ensures Turn(text, f, old(pos), c, next, pos, target)
      ensures next.Go? && c != NUL ==>
                && pos <= text.End() && InsideString(next.f.state)
                && StringInv(text, next.f, pos, pb.Contents(), target)
    {
      hide PrintBuf.PrintBuf.Contents, PrintBuf.PrintBuf.Valid, StringInv, ControlChar;
      EscapeMeaning(text, f, pos, pb.Contents(), target);
      var run := text.source[f.startOffset..pos - 1];
      if c == DQUOTE || c == BACKSLASH {
        pb.MemAppend(run);
        next := Go(f.(startOffset := pos, state := f.saved));
        pos := pos + 1;
      } else if IsControlEscape(c) {
        pb.MemAppend(run);
        pb.MemAppend([ControlChar(c)]);
        pos := pos + 1;
        next := Go(f.(startOffset := pos, state := f.saved));
      } else if c == LOWER_U {
        pb.MemAppend(run);
        pos := pos + 1;
        next := Go(f.(startOffset := pos, state := EscapeUnicode));
      } else {
        next := Stop(Failed(ErrString));
      }
    }

    // strchr finds the NUL in json_hex_chars too, so the end of the text counts as a
    // hexadecimal digit here; the loop ends with it.
    method StepUnicode(f: Frame, c: byte, ghost target: Parse) returns (next: Next)
      requires Valid() && pos <= text.End() && c == text.source[pos]
      requires f.state.EscapeUnicode? && StringInv(text, f, pos, pb.Contents(), target)
      modifies this`pos, pb, pb.buf
      ensures Valid() && (pb.buf == old(pb.buf) || fresh(pb.buf))
      ensures Turn(text, f, old(pos), c, next, pos, target)
      ensures next.Go? && c != NUL ==>
                && pos <= text.End() && InsideString(next.f.state)
                && StringInv(text, next.f, pos, pb.Contents(), target)
    {
      hide PrintBuf.PrintBuf.Contents, PrintBuf.PrintBuf.Valid, Inv, AfterString, Text.StringBody, Utf8, HexValue;
      AfterBadString(text, f.saved, f.current, if c == NUL then ErrEof else ErrString);
      if !IsHexChar(c) && c != NUL {
        return Stop(Failed(ErrString));
      }
      pos := pos + 1;
      next := Go(f);
      if c != NUL && pos - f.startOffset == 4 {
        assert text.StringUnicode(f.startOffset, 4, f.quote, pb.Contents())
            == text.StringBody(pos, f.quote, pb.Contents() + Utf8(HexValue(text.source[f.startOffset..pos])));
        pb.MemAppend(Utf8(HexValue(text.source[f.startOffset..pos])));
        next := Go(f.(startOffset := pos, state := f.saved));
        assert pb.Contents() + text.source[pos..pos] == pb.Contents();
      }
    }

    method StepArray(f: Frame, c: byte, ghost target: Parse) returns (next: Next)
      requires Valid() && pos < text.End() && c == text.source[pos]
      requires (f.state.ArrayElem? || f.state.ArraySep?) && f.current.Array?
      requires target == Resume(text, f.state, f.current, f.fieldName, pos)
      modifies this, pb, pb.buf
      ensures Valid() && (pb.buf == old(pb.buf) || fresh(pb.buf))
      ensures Turn(text, f, old(pos), c, next, pos, target)
      ensures next.Go? && c != NUL ==> Inv(text, next.f, pos, pb.Contents(), target)
      decreases |text.source| - pos, 2
    {
      hide PrintBuf.PrintBuf.Contents, PrintBuf.PrintBuf.Valid, WordInv, NumberInv, StringInv, Text.Finish;
      if c == RBRACKET {
        pos := pos + 1;
        next := Go(f.(saved := Finish, state := Eatws));
      } else if f.state.ArrayElem? {
        var o := DoParse();
        match o {
          case Done(obj) =>
            next := Go(f.(current := Array(f.current.elems + [obj]), saved := ArraySep, state := Eatws));
          case _ => next := Stop(o);
        }
      } else if c == COMMA {
        pos := pos + 1;
        next := Go(f.(saved := ArrayElem, state := Eatws));
      } else {
        next := Stop(Failed(ErrArray));
      }
    }

    method StepObject(f: Frame, c: byte, ghost target: Parse) returns (next: Next)
      requires Valid() && pos < text.End() && c == text.source[pos]
      requires f.current.Object?
      requires f.state in {ObjectOpen, FieldStart, FieldEnd, ObjectSep}
      requires Inv(text, f, pos, pb.Contents(), target)
      modifies this`pos, pb, pb.buf
      ensures Valid() && (pb.buf == old(pb.buf) || fresh(pb.buf))
      ensures Turn(text, f, old(pos), c, next, pos, target)
      ensures next.Go? && c != NUL ==> Inv(text, next.f, pos, pb.Contents(), target)
    {
      hide PrintBuf.PrintBuf.Contents, PrintBuf.PrintBuf.Valid, GapInv, WordInv, NumberInv, StringInv, Resume;
      ObjectMeaning(text, f, pos, pb.Contents(), target);
      if f.state.ObjectOpen? {
        next := Go(f.(state := FieldStart, startOffset := pos));
      } else if f.state.FieldEnd? {
        if c == COLON {
          pos := pos + 1;
          next := Go(f.(saved := ObjectValue, state := Eatws));
        } else {
          next := Stop(Failed(ErrObject));
        }
      } else if c == RBRACE {
        pos := pos + 1;
        next := Go(f.(saved := Finish, state := Eatws));
      } else if f.state.FieldStart? && IsQuote(c) {
        pb.Reset();
        pos := pos + 1;
        next := Go(f.(state := FieldName, quote := c, startOffset := pos));
      } else if f.state.ObjectSep? && c == COMMA {
        pos := pos + 1;
        next := Go(f.(saved := ObjectOpen, state := Eatws));
      } else {
        next := Stop(Failed(ErrObject));
      }
    }

    method StepObjectValue(f: Frame, c: byte, ghost target: Parse) returns (next: Next)
      requires Valid() && pos < text.End() && c == text.source[pos]
      requires f.state.ObjectValue? && f.current.Object?
      requires target == text.MemberValueAt(pos, f.fieldName, f.current.fields)
      modifies this, pb, pb.buf
      ensures Valid() && (pb.buf == old(pb.buf) || fresh(pb.buf))
      ensures Turn(text, f, old(pos), c, next, pos, target)
      ensures next.Go? ==> Inv(text, next.f, pos, pb.Contents(), target)
      decreases |text.source| - pos, 2
    {
      hide PrintBuf.PrintBuf.Contents, PrintBuf.PrintBuf.Valid, WordInv, NumberInv, StringInv, Text.Finish, Text.Skip,
           Add;
      var o := DoParse();
      match o {
        case Done(obj) =>
          var fields := Add(f.current.fields, f.fieldName, obj);
          next := Go(f.(current := Object(fields), saved := ObjectSep, state := Eatws));
        case _ => next := Stop(o);
      }
    }
  }
}
