/** pam_sm_authenticate, and sms_on_err of sms.c.

    A session is a chain of steps with at most one call of a table function each. The
    method Authenticate takes the steps without interruption; sessions that take turns
    are in the module Interleaved. */
module Session {
  import opened Bytes
  import opened OrderedMap
  import opened Otp
  import opened StatusTable

  datatype PamResult = Success | Ignore | AuthErr | SystemErr | AuthinfoUnavail

  datatype SmsResult =
    | SmsNone
    | SmsOk
    | SockCreateErr
    | Json2StrErr
    | WriteOnSockErr
    | ReadFromSockErr
    | SnprintfErr
    | Conn2ServerErr
    | GatewayErr

  // Bounds of the expir argument, in minutes
  const TIME_MIN: nat := 1
  const TIME_MAX: nat := 60

  // The arguments of a call, and what its surroundings answer
  datatype Call = Call(
    user: bytes,
    now: int,
    otpLen: nat,
    otpType: OtpType,
    expir: nat,
    relaxed: bool,
    except: Option<bytes>,
    gecos: bool,               // whether user_get_info succeeds
    generated: Option<bytes>,  // result of otp_gen
    sent: SmsResult,           // result of sms_send
    input: Option<bytes>       // what the user types
  ) {
    // What pam_arg_parse and otp_gen promise
    predicate Valid() {
      && OTPLEN_MIN <= otpLen <= OTPLEN_MAX && TIME_MIN <= expir <= TIME_MAX
      && (generated.Some? ==> IsOtp(generated.value, otpLen, otpType))
    }

    // strncmp over the length of except
    predicate Excepted() {
      except.Some? && except.value <= user
    }

    predicate Relaxes() {
      relaxed && ServerFails(sent)
    }
  }

  // The module itself has failed.
  predicate ModuleFails(r: SmsResult) {
    r in {SockCreateErr, Json2StrErr, WriteOnSockErr, ReadFromSockErr, SnprintfErr}
  }

  // The server is down, or the gateway could not send.
  predicate ServerFails(r: SmsResult) {
    r in {Conn2ServerErr, GatewayErr}
  }

  function Refusal(call: Call): PamResult {
    if ModuleFails(call.sent) then SystemErr else if call.Relaxes() then Success else AuthErr
  }

  // sms_on_err. Only SMS_OK lets the session go on; a relaxed module then lets the user
  // in if the message could not be sent.
  method SmsOnErr(result: SmsResult, relaxed: bool) returns (ret: int, pamRet: PamResult)
    ensures ret == 0 <==> result == SmsOk
    ensures ret == 1 <==> result in {SockCreateErr, Json2StrErr, WriteOnSockErr, ReadFromSockErr, SnprintfErr}
    ensures ret == 2 <==> result in {Conn2ServerErr, GatewayErr}
    ensures ret == 3 <==> result == SmsNone
    ensures pamRet == if ret == 1 then SystemErr else if ret == 2 && relaxed then Success else AuthErr
  {
    pamRet := AuthErr;
    match result {
      case SockCreateErr | Json2StrErr | WriteOnSockErr | ReadFromSockErr | SnprintfErr =>
        ret, pamRet := 1, SystemErr;
      case GatewayErr | Conn2ServerErr =>
        if relaxed {
          pamRet := Success;
        }
        ret := 2;
      case SmsOk =>
        ret := 0;
      case SmsNone =>
        ret := 3;
    }
  }

  // What the session is about to do
  datatype Phase =
    | Begin
    | ReadTimestamp
    | Purge
    | FindUser
    | Insert
    | FindOtp
    | Send
    | Register(otp: bytes)
    | Prompt
    | Fetch(input: bytes)
    | Over(ret: PamResult, compared: Option<bytes>)  // compared: the stored OTP, if it came to that

  function Rank(p: Phase): nat {
    match p
    case Begin => 10
    case ReadTimestamp => 9
    case Purge => 8
    case FindUser => 7
    case Insert => 6
    case FindOtp => 5
    case Send => 4
    case Register(_) => 3
    case Prompt => 2
    case Fetch(_) => 1
    case Over(_, _) => 0
  }

  // One step; opens says whether the table function it calls can open the database.
  function Step(rows: seq<Row>, call: Call, phase: Phase, opens: bool): (r: (seq<Row>, Phase))
    requires !phase.Over?
    ensures Rank(r.1) < Rank(phase)
  {
    match phase
    case Begin =>
      (rows, if call.Excepted() then Over(Success, None) else if !call.gecos then Over(Ignore, None) else ReadTimestamp)
    case ReadTimestamp =>
      (rows, if opens && IsRegistered(rows, call.user, TimestampColumn) then Purge else FindUser)
    case Purge =>
      (if opens then Purged(rows, call.now) else rows, FindUser)
    case FindUser =>
      (rows, if opens && IsRegistered(rows, call.user, UserColumn) then FindOtp else Insert)
    case Insert =>
      if opens then (Inserted(rows, call.user, call.now + 60 * call.expir), FindOtp)
      else (rows, Over(SystemErr, None))
    case FindOtp =>
      (rows, if opens && IsRegistered(rows, call.user, OtpColumn) then Prompt else Send)
    case Send =>
      (rows,
       if call.generated == None then Over(SystemErr, None)
       else if call.sent != SmsOk then Over(Refusal(call), None)
       else Register(call.generated.value))
    case Register(otp) =>
      if opens && Find(rows, call.user).Some? then (WithOtp(rows, Find(rows, call.user).value.id, otp), Prompt)
      else (rows, Over(SystemErr, None))
    case Prompt =>
      (rows, if call.input == None then Over(AuthinfoUnavail, None) else Fetch(call.input.value))
    case Fetch(input) =>
      (rows,
       if !opens || ColumnText(rows, call.user, OtpColumn) == None then Over(SystemErr, None)
       else
         var otp := ColumnText(rows, call.user, OtpColumn).value;
         Over(if StrnEqual(otp, input, call.otpLen) then Success else AuthErr, Some(otp)))
  }

  // The remaining steps, without interruption
  function Finish(rows: seq<Row>, call: Call, phase: Phase, opens: Phase -> bool): (r: (seq<Row>, Phase))
    ensures r.1.Over?
    decreases Rank(phase)
  {
    if phase.Over? then (rows, phase)
    else
      var next := Step(rows, call, phase, opens(phase));
      Finish(next.0, call, next.1, opens)
  }

  lemma OneStep(rows: seq<Row>, call: Call, phase: Phase, opens: Phase -> bool)
    requires !phase.Over?
    ensures var next := Step(rows, call, phase, opens(phase));
            Finish(rows, call, phase, opens) == if next.1.Over? then next else Finish(next.0, call, next.1, opens)
  {
  }

  // Old rows are removed, and the user gets a row.
  method EnsureRow(t: Table, call: Call, opens: Phase -> bool) returns (ok: bool)
    requires t.Valid()
    modifies t
    ensures t.Valid()
    ensures Finish(old(t.rows), call, ReadTimestamp, opens)
         == if ok then Finish(t.rows, call, FindOtp, opens) else (t.rows, Over(SystemErr, None))
  {
    hide Finish, Find, Purged, Inserted, IsRegistered, Keyed, Rank;
    ghost var goal := Finish(t.rows, call, ReadTimestamp, opens);
    OneStep(t.rows, call, ReadTimestamp, opens);
    var registered := t.IsRegisteredVar(call.user, TimestampColumn, opens(ReadTimestamp));
    if registered != 0 {
      OneStep(t.rows, call, Purge, opens);
      var _ := t.UnregisterExpirVars(call.now, opens(Purge));
    }
    assert goal == Finish(t.rows, call, FindUser, opens);
    OneStep(t.rows, call, FindUser, opens);
    registered := t.IsRegisteredVar(call.user, UserColumn, opens(FindUser));
    if registered == 0 {
      OneStep(t.rows, call, Insert, opens);
      var timeExpir := call.expir * 60 + call.now;
      var done := t.RegisterInit(call.user, timeExpir, opens(Insert));
      if done == 0 {
        return false;
      }
    }
    ok := true;
  }

  // If there is no OTP in the row, one is sent and registered.
  method EnsureOtp(t: Table, call: Call, opens: Phase -> bool) returns (refused: Option<PamResult>)
    requires t.Valid()
    modifies t
    ensures t.Valid()
    ensures Finish(old(t.rows), call, FindOtp, opens)
         == match refused
            case None => Finish(t.rows, call, Prompt, opens)
            case Some(ret) => (t.rows, Over(ret, None))
  {
    hide Finish, Find, WithOtp, IsRegistered, Keyed, Rank;
    OneStep(t.rows, call, FindOtp, opens);
    var registered := t.IsRegisteredVar(call.user, OtpColumn, opens(FindOtp));
    if registered == 0 {
      OneStep(t.rows, call, Send, opens);
      if call.generated == None {
        return Some(SystemErr);
      }
      var failed, pamRet := SmsOnErr(call.sent, call.relaxed);
      if failed != 0 {
        return Some(pamRet);
      }
      var otp := call.generated.value;
      OneStep(t.rows, call, Register(otp), opens);
      var done := t.RegisterOtp(call.user, otp, opens(Register(otp)));
      if done == 0 {
        return Some(SystemErr);
      }
    }
    refused := None;
  }

  // What the user types is compared with the OTP in the row.
  method CheckInput(t: Table, call: Call, opens: Phase -> bool)
    returns (ret: PamResult, ghost compared: Option<bytes>)
    requires t.Valid()
    ensures var end := Finish(t.rows, call, Prompt, opens); end.0 == t.rows && end.1.ret == ret
    ensures compared == Finish(t.rows, call, Prompt, opens).1.compared
  {
    hide Finish, StrnEqual, ColumnText, Keyed, Rank;
    OneStep(t.rows, call, Prompt, opens);
    if call.input == None {
      return AuthinfoUnavail, None;
    }
    var input := call.input.value;
    OneStep(t.rows, call, Fetch(input), opens);
    var otp := t.GetOtp(call.user, opens(Fetch(input)));
    if otp == None {
      return SystemErr, None;
    }
    ret := if StrnEqual(otp.value, input, call.otpLen) then Success else AuthErr;
    compared := otp;
  }

  // pam_sm_authenticate, from the point where the user is known
  method Authenticate(t: Table, call: Call, opens: Phase -> bool)
    returns (ret: PamResult, ghost compared: Option<bytes>)
    requires t.Valid()
    modifies t
    ensures t.Valid()
    ensures var end := Finish(old(t.rows), call, Begin, opens); end.0 == t.rows && end.1.ret == ret
    ensures compared == Finish(old(t.rows), call, Begin, opens).1.compared
  {
    hide Keyed;
    OneStep(t.rows, call, Begin, opens);
    if call.except.Some? && call.except.value <= call.user {
      return Success, None;
    }
    if !call.gecos {
      return Ignore, None;
    }
    hide Finish, Step;
    var registered := EnsureRow(t, call, opens);
    if !registered {
      return SystemErr, None;
    }
    var refused := EnsureOtp(t, call, opens);
    if refused.Some? {
      return refused.value, None;
    }
    ret, compared := CheckInput(t, call, opens);
  }
}
