/** What a call of pam_sm_authenticate returns, in terms of its arguments, its surroundings
    and the table, without the steps in between. */
module Outcomes {
  import opened Bytes
  import opened OrderedMap
  import opened Otp
  import opened StatusTable
  import opened Session
  import opened SerialSessions

  // The option except names the user: it agrees with the user's name over its own length.
  predicate Spared(call: Call) {
    && call.except.Some? && |call.except.value| <= |call.user|
    && forall i :: 0 <= i < |call.except.value| ==> call.user[i] == call.except.value[i]
  }

  predicate CannotSend(call: Call) {
    call.sent in {SockCreateErr, Json2StrErr, WriteOnSockErr, ReadFromSockErr, SnprintfErr}
  }

  predicate IsDown(call: Call) {
    call.sent in {GatewayErr, Conn2ServerErr}
  }

  lemma SparedIsExcepted(call: Call)
    ensures Spared(call) <==> call.Excepted()
  {
  }

  lemma ValidCalls(call: Call)
    ensures call.Valid() <==>
              && 4 <= call.otpLen <= 24 && 1 <= call.expir <= 60
              && (call.generated.Some? ==>
                   && |call.generated.value| == call.otpLen
                   && forall i :: 0 <= i < call.otpLen ==> call.generated.value[i] in Alphabet(call.otpType))
  {
    hide Alphabet;
  }

  // ---- whatever the database does ----

  // A user the option names gets in, and one without a telephone number is left to other
  // modules; the table stays as it is.
  lemma BeforeTheTable(rows: seq<Row>, call: Call, opens: Phase -> bool)
    ensures var e := call.except;
            e.Some? && |e.value| <= |call.user| && (forall i :: 0 <= i < |e.value| ==> call.user[i] == e.value[i]) ==>
              Finish(rows, call, Begin, opens) == (rows, Over(Success, None))
    ensures Spared(call) ==> Finish(rows, call, Begin, opens) == (rows, Over(Success, None))
    ensures !Spared(call) && !call.gecos ==> Finish(rows, call, Begin, opens) == (rows, Over(Ignore, None))
    ensures !Spared(call) && call.gecos ==>
              Finish(rows, call, Begin, opens) == Finish(rows, call, ReadTimestamp, opens)
  {
    hide Finish;
    SparedIsExcepted(call);
    OneStep(rows, call, Begin, opens);
  }

  // A row that cannot be inserted
  lemma AtInsert(rows: seq<Row>, call: Call, opens: Phase -> bool)
    ensures !opens(Insert) ==> Finish(rows, call, Insert, opens) == (rows, Over(SystemErr, None))
  {
    hide Finish;
    OneStep(rows, call, Insert, opens);
  }

  // An OTP has to be sent.
  lemma AtSend(rows: seq<Row>, call: Call, opens: Phase -> bool)
    ensures Finish(rows, call, Send, opens) ==
              if call.generated == None || CannotSend(call) then (rows, Over(SystemErr, None))
              else if IsDown(call) then (rows, Over(if call.relaxed then Success else AuthErr, None))
              else if call.sent == SmsNone then (rows, Over(AuthErr, None))
              else Finish(rows, call, Register(call.generated.value), opens)
  {
    hide Finish;
    OneStep(rows, call, Send, opens);
  }

  // It has been sent, but its user has no row or the database is gone.
  lemma AtRegister(rows: seq<Row>, call: Call, otp: bytes, opens: Phase -> bool)
    ensures !opens(Register(otp)) || Find(rows, call.user) == None ==>
              Finish(rows, call, Register(otp), opens) == (rows, Over(SystemErr, None))
  {
    hide Finish, Find;
    OneStep(rows, call, Register(otp), opens);
  }

  lemma AtPrompt(rows: seq<Row>, call: Call, opens: Phase -> bool)
    ensures call.input == None ==> Finish(rows, call, Prompt, opens) == (rows, Over(AuthinfoUnavail, None))
    ensures call.input.Some? ==>
              Finish(rows, call, Prompt, opens) == Finish(rows, call, Fetch(call.input.value), opens)
  {
    hide Finish;
    OneStep(rows, call, Prompt, opens);
  }

  // The OTP in the row, 32 characters of it at most, decides over otpLen characters.
  lemma AtFetch(rows: seq<Row>, call: Call, input: bytes, opens: Phase -> bool)
    ensures var r := Find(rows, call.user);
            Finish(rows, call, Fetch(input), opens) ==
              if !opens(Fetch(input)) || r == None || r.value.otp == None then (rows, Over(SystemErr, None))
              else
                var otp := Take(r.value.otp.value, 32);
                var same := Take(otp, call.otpLen) == Take(input, call.otpLen);
                (rows, Over(if same then Success else AuthErr, Some(otp)))
  {
    hide Finish, Find, StrnEqual, Take;
    OneStep(rows, call, Fetch(input), opens);
    var r := Find(rows, call.user);
    if r.Some? && r.value.otp.Some? {
      CopiedIs(r.value.otp.value);
      StrnEqualIsTake(Copied(r.value.otp.value), input, call.otpLen);
    }
  }

  lemma CopiedIs(s: bytes)
    ensures Copied(s) == Take(s, 32)
  {
  }

  // With no database at all, those who have to be asked get a system error.
  lemma NoDatabase(rows: seq<Row>, call: Call)
    requires !Spared(call) && call.gecos
    ensures Finish(rows, call, Begin, _ => false) == (rows, Over(SystemErr, None))
  {
    hide Finish, Find, Inserted, Purged;
    var never: Phase -> bool := _ => false;
    BeforeTheTable(rows, call, never);
    OneStep(rows, call, ReadTimestamp, never);
    OneStep(rows, call, FindUser, never);
    AtInsert(rows, call, never);
  }

  // ---- with a database that answers ----

  // The OTP that waits for the user: his row has one, and its time, if it has one, is not over.
  function Waiting(rows: seq<Row>, call: Call): Option<bytes> {
    var r := Find(rows, call.user);
    if r.Some? && !(0 < r.value.timestamp < call.now) then r.value.otp else None
  }

  // The call comes to ask for an OTP.
  predicate Asks(rows: seq<Row>, call: Call) {
    && !Spared(call) && call.gecos
    && (Waiting(rows, call).Some? || (call.generated.Some? && call.sent == SmsOk))
  }

  // The OTP it asks for
  function Expected(rows: seq<Row>, call: Call): bytes
    requires Asks(rows, call)
  {
    var w := Waiting(rows, call);
    if w.Some? then w.value else call.generated.value
  }

  // The user's row when the OTP is looked for: his own one, or one that is inserted
  lemma RowPrepared(rows: seq<Row>, call: Call)
    requires Keyed(rows) && OneRowEach(rows)
    ensures var r, p := Find(rows, call.user), Find(Prepared(rows, call), call.user);
            && p.Some? && p.value.otp == Waiting(rows, call)
            && if r.Some? && !(0 < r.value.timestamp < call.now) then p == r
               else p.value.timestamp == call.now + 60 * call.expir
  {
    hide Find, Purged, Inserted, Keyed, OneRowEach;
    var r, s := Find(rows, call.user), Swept(rows, call);
    InsertedIsFound(s, call.user, call.now + 60 * call.expir);
    if r.Some? && r.value.timestamp > 0 {
      PurgedRows(rows, call.now, r.value);
      PurgedKeepsOneRowEach(rows, call.now);
      if r.value.timestamp >= call.now {
        FoundInPart(s, r.value);
      } else if Find(s, call.user).Some? {
        PurgedRows(rows, call.now, Find(s, call.user).value);
        OneRowOnly(rows, r.value, Find(s, call.user).value);
      }
    }
  }

  lemma FoundInPart(rows: seq<Row>, r: Row)
    requires OneRowEach(rows) && r in rows
    ensures Find(rows, r.user) == Some(r)
  {
    hide Find;
    var i :| 0 <= i < |rows| && rows[i] == r;
    FindIsTheRow(rows, i);
  }

  lemma OneRowOnly(rows: seq<Row>, r: Row, r': Row)
    requires OneRowEach(rows) && r in rows && r' in rows && r.user == r'.user
    ensures r == r'
  {
    hide Find;
    FoundInPart(rows, r);
    FoundInPart(rows, r');
  }

  // Where a call that is asked about goes on: at the prompt, with the OTP in the row, or it
  // is over because none can be sent.
  lemma UpToThePrompt(rows: seq<Row>, call: Call)
    requires Keyed(rows) && OneRowEach(rows) && !Spared(call) && call.gecos
    ensures if !Asks(rows, call) then
              Run(rows, call) == Finish(Prepared(rows, call), call, Send, Always)
            else
              exists after :: Run(rows, call) == Finish(after, call, Prompt, Always)
                              && RowAsked(rows, call, Find(after, call.user))
  {
    hide Finish, Find, Keyed, OneRowEach, Prepared, WithOtp, Waiting;
    SparedIsExcepted(call);
    ToFindUser(rows, call);
    ToFindOtp(rows, call);
    RowPrepared(rows, call);
    var p := Prepared(rows, call);
    OneStep(p, call, FindOtp, Always);
    var row := Find(p, call.user).value;
    if Asks(rows, call) && Waiting(rows, call) == None {
      var otp := call.generated.value;
      AtSend(p, call, Always);
      OneStep(p, call, Register(otp), Always);
      FindWithOtp(p, call.user, row.id, otp);
      var after := WithOtp(p, row.id, otp);
      assert RowAsked(rows, call, Find(after, call.user));
    } else if Asks(rows, call) {
      assert RowAsked(rows, call, Find(p, call.user));
    }
  }

  // The user's row from the prompt on
  ghost predicate RowAsked(rows: seq<Row>, call: Call, r: Option<Row>)
    requires Asks(rows, call)
  {
    && r.Some? && r.value.otp == Some(Expected(rows, call))
    && var was := Find(rows, call.user);
       r.value.timestamp ==
         if was.Some? && !(0 < was.value.timestamp < call.now) then was.value.timestamp
         else call.now + 60 * call.expir
  }

  // The result of a call, each with its exact condition; AUTH_ERR is all the rest.
  lemma Results(rows: seq<Row>, call: Call)
    requires Keyed(rows) && OneRowEach(rows)
    ensures var ret := Run(rows, call).1.ret;
            var asked := Asks(rows, call);
            var sends := !Spared(call) && call.gecos && Waiting(rows, call) == None;
            && (ret == Ignore <==> !Spared(call) && !call.gecos)
            && (ret == SystemErr <==> sends && (call.generated == None || CannotSend(call)))
            && (ret == AuthinfoUnavail <==> asked && call.input == None)
            && (ret == Success <==>
                 || Spared(call)
                 || (sends && call.generated.Some? && IsDown(call) && call.relaxed)
                 || (asked && call.input.Some?
                     && Take(Take(Expected(rows, call), 32), call.otpLen) == Take(call.input.value, call.otpLen)))
    ensures Run(rows, call).1.compared
         == if Asks(rows, call) && call.input.Some? then Some(Take(Expected(rows, call), 32)) else None
  {
    hide Finish, Find, Keyed, OneRowEach, Prepared, Waiting, Take;
    BeforeTheTable(rows, call, Always);
    if !Spared(call) && call.gecos {
      UpToThePrompt(rows, call);
      if !Asks(rows, call) {
        AtSend(Prepared(rows, call), call, Always);
      } else {
        var after :| Run(rows, call) == Finish(after, call, Prompt, Always)
                     && RowAsked(rows, call, Find(after, call.user));
        AtPrompt(after, call, Always);
        if call.input.Some? {
          AtFetch(after, call, call.input.value, Always);
        }
      }
    }
  }

  // So a relaxed module lets the user in, without an OTP, while the gateway is down.
  lemma RelaxedSuccess(rows: seq<Row>, call: Call)
    requires Keyed(rows) && OneRowEach(rows) && !Spared(call) && call.gecos && Waiting(rows, call) == None
    requires call.generated.Some? && call.sent in {GatewayErr, Conn2ServerErr} && call.relaxed
    ensures var (after, end) := Run(rows, call);
            end == Over(Success, None) && var r := Find(after, call.user); r.Some? && r.value.otp == None
  {
    hide Run, Find, Keyed, OneRowEach, Waiting;
    Results(rows, call);
    RowAfter(rows, call);
    EndsOver(rows, call);
  }

  lemma EndsOver(rows: seq<Row>, call: Call)
    ensures Run(rows, call).1.Over?
  {
  }

  // The user's row after a call that asks: it holds the OTP, and its time is the old one or
  // expir minutes from the call on. A call that could not send leaves it without an OTP.
  lemma RowAfter(rows: seq<Row>, call: Call)
    requires Keyed(rows) && OneRowEach(rows)
    ensures var after := Run(rows, call).0;
            && (Spared(call) || !call.gecos ==> after == rows)
            && (!Spared(call) && call.gecos && !Asks(rows, call) ==>
                 var r := Find(after, call.user); r.Some? && r.value.otp == None)
            && (Asks(rows, call) ==> RowAsked(rows, call, Find(after, call.user)))
  {
    hide Finish, Find, Keyed, OneRowEach, Prepared, Waiting, Take, RowAsked;
    BeforeTheTable(rows, call, Always);
    if !Spared(call) && call.gecos {
      UpToThePrompt(rows, call);
      RowPrepared(rows, call);
      if !Asks(rows, call) {
        AtSend(Prepared(rows, call), call, Always);
      } else {
        var after :| Run(rows, call) == Finish(after, call, Prompt, Always)
                     && RowAsked(rows, call, Find(after, call.user));
        AtPrompt(after, call, Always);
        if call.input.Some? {
          AtFetch(after, call, call.input.value, Always);
        }
      }
    }
  }
}
