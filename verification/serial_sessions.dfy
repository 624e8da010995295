/** Runs of sessions that do not overlap, with a clock that never goes back and a
    database that always answers. */
module SerialSessions {
  import opened Bytes
  import opened OrderedMap
  import opened Otp
  import opened StatusTable
  import opened Session

  function Always(p: Phase): bool {
    true
  }

  function Run(rows: seq<Row>, call: Call): (seq<Row>, Phase) {
    Finish(rows, call, Begin, Always)
  }

  // The table after the calls, empty at first
  function After(calls: seq<Call>): seq<Row> {
    if calls == [] then []
    else
      var last := |calls| - 1;
      Run(After(calls[..last]), calls[last]).0
  }

  ghost predicate Ordered(calls: seq<Call>) {
    && (forall i :: 0 <= i < |calls| ==> calls[i].Valid() && calls[i].now >= 0)
    && forall i, j :: 0 <= i <= j < |calls| ==> calls[i].now <= calls[j].now
  }

  // One more call, not before the others
  lemma OneMoreCall(calls: seq<Call>, call: Call)
    requires Ordered(calls) && call.Valid() && call.now >= 0
    requires calls != [] ==> calls[|calls| - 1].now <= call.now
    ensures Ordered(calls + [call])
  {
    hide Call.Valid;
    var more := calls + [call];
    forall i, j | 0 <= i <= j < |more| ensures more[i].now <= more[j].now {
      assert i < |calls| ==> calls[i].now <= calls[|calls| - 1].now;
    }
  }

  lemma TheTableAfterIt(calls: seq<Call>, call: Call)
    ensures After(calls + [call]) == Run(After(calls), call).0
    ensures Ordered([]) && After([]) == []
  {
    AfterOneMore(calls + [call]);
    assert (calls + [call])[..|calls|] == calls;
    assert After([]) == [];
    hide Run, After;
  }

  // ---- one call ----

  function Swept(rows: seq<Row>, call: Call): seq<Row> {
    if IsRegistered(rows, call.user, TimestampColumn) then Purged(rows, call.now) else rows
  }

  function Prepared(rows: seq<Row>, call: Call): seq<Row> {
    var s := Swept(rows, call);
    if Find(s, call.user).Some? then s else Inserted(s, call.user, call.now + 60 * call.expir)
  }

  predicate Proceeds(call: Call) {
    !call.Excepted() && call.gecos
  }

  // The call sends an OTP and stores it.
  predicate Sends(rows: seq<Row>, call: Call) {
    && Proceeds(call) && call.generated.Some? && call.sent == SmsOk
    && var r := Find(Prepared(rows, call), call.user);
       r.Some? && r.value.otp == None
  }

  function Filled(rows: seq<Row>, call: Call): seq<Row>
    requires Sends(rows, call)
  {
    var p := Prepared(rows, call);
    WithOtp(p, Find(p, call.user).value.id, call.generated.value)
  }

  lemma PreparedHasTheRow(rows: seq<Row>, call: Call)
    requires Keyed(rows)
    ensures Keyed(Prepared(rows, call)) && Find(Prepared(rows, call), call.user).Some?
    ensures OneRowEach(rows) ==> OneRowEach(Prepared(rows, call))
  {
    hide Find, Purged, Keyed, OneRowEach, Inserted;
    var s, time := Swept(rows, call), call.now + 60 * call.expir;
    PurgedIsKeyed(rows, call.now);
    InsertedIsKeyed(s, call.user, time);
    InsertedIsFound(s, call.user, time);
    if OneRowEach(rows) {
      PurgedKeepsOneRowEach(rows, call.now);
      InsertionKeepsOneRowEach(s, call.user, time);
    }
  }

  lemma ToFindUser(rows: seq<Row>, call: Call)
    requires Proceeds(call)
    ensures Run(rows, call) == Finish(Swept(rows, call), call, FindUser, Always)
  {
    hide Finish, Find, Purged, Rank;
    OneStep(rows, call, Begin, Always);
    OneStep(rows, call, ReadTimestamp, Always);
    OneStep(rows, call, Purge, Always);
  }

  lemma ToFindOtp(rows: seq<Row>, call: Call)
    ensures Finish(Swept(rows, call), call, FindUser, Always) == Finish(Prepared(rows, call), call, FindOtp, Always)
  {
    hide Finish, Find, Purged, Inserted, Rank;
    var s := Swept(rows, call);
    OneStep(s, call, FindUser, Always);
    OneStep(s, call, Insert, Always);
  }

  lemma IdleCall(rows: seq<Row>, call: Call)
    requires !Proceeds(call)
    ensures Run(rows, call) == (rows, Over(if call.Excepted() then Success else Ignore, None))
  {
    hide Finish;
    OneStep(rows, call, Begin, Always);
  }

  // What a call does to the table, and which OTP it compares
  lemma CallEffect(rows: seq<Row>, call: Call)
    requires Keyed(rows) && Proceeds(call)
    ensures var r := Run(rows, call);
            && r.0 == (if Sends(rows, call) then Filled(rows, call) else Prepared(rows, call))
            && (r.1.compared.Some? ==>
                 && call.input.Some? && ColumnText(r.0, call.user, OtpColumn) == r.1.compared
                 && (r.1.ret == Success <==> StrnEqual(r.1.compared.value, call.input.value, call.otpLen)))
  {
    hide Finish, Find, Purged, Inserted, WithOtp, Rank, Keyed, Prepared, Copied, StrnEqual;
    ToFindUser(rows, call);
    ToFindOtp(rows, call);
    PreparedHasTheRow(rows, call);
    var p := Prepared(rows, call);
    OneStep(p, call, FindOtp, Always);
    OneStep(p, call, Send, Always);
    if Sends(rows, call) {
      OneStep(p, call, Register(call.generated.value), Always);
    }
    var q := if Sends(rows, call) then Filled(rows, call) else p;
    OneStep(q, call, Prompt, Always);
    if call.input.Some? {
      OneStep(q, call, Fetch(call.input.value), Always);
    }
  }

  // ---- where rows come from ----

  // Row r was inserted by call k.
  ghost predicate Born(calls: seq<Call>, k: nat, r: Row) {
    && k < |calls| && Proceeds(calls[k]) && r.user == calls[k].user
    && r.timestamp == calls[k].now + 60 * calls[k].expir
  }

  // The OTP of row r was generated and sent by call j.
  ghost predicate Made(calls: seq<Call>, j: nat, r: Row) {
    && j < |calls| && Proceeds(calls[j]) && r.user == calls[j].user
    && calls[j].generated == r.otp && calls[j].sent == SmsOk
    && calls[j].now <= r.timestamp
  }

  ghost predicate Traced(calls: seq<Call>, r: Row) {
    exists k: nat :: Born(calls, k, r) && (r.otp.Some? ==> exists j: nat :: k <= j && Made(calls, j, r))
  }

  // Keys are positive and distinct, each user has at most one row, and each row is the
  // work of earlier calls.
  ghost predicate Sound(calls: seq<Call>, rows: seq<Row>) {
    Keyed(rows) && OneRowEach(rows) && forall r :: r in rows ==> Traced(calls, r)
  }

  // Row r' is row r at a later time: an OTP it has stays.
  predicate Continues(r: Row, r': Row) {
    r'.id == r.id && r'.user == r.user && r'.timestamp == r.timestamp && (r.otp.Some? ==> r'.otp == r.otp)
  }

  predicate IsNew(rows: seq<Row>, call: Call, r: Row) {
    && r.id == NextId(Swept(rows, call)) && r.user == call.user
    && r.timestamp == call.now + 60 * call.expir
  }

  // How the rows after a call relate to those before it
  lemma RowsAfter(rows: seq<Row>, call: Call, r': Row)
    requires Keyed(rows) && Proceeds(call) && r' in Run(rows, call).0
    ensures (exists r :: r in Swept(rows, call) && Continues(r, r')) || IsNew(rows, call, r')
    ensures r'.otp.Some? ==> r' in rows || (Sends(rows, call) && r'.user == call.user && r'.otp == call.generated)
  {
    hide Finish, Find, Keyed, WithOtp, Swept, Run;
    CallEffect(rows, call);
    var p := Prepared(rows, call);
    var i :| 0 <= i < |Run(rows, call).0| && Run(rows, call).0[i] == r';
    FilledAt(rows, call, i);
    assert Continues(p[i], r');
    assert p[i] in p;
    if p[i] in Swept(rows, call) {
      SweptIsThere(rows, call, p[i]);
    }
  }

  lemma FilledAt(rows: seq<Row>, call: Call, i: nat)
    requires Keyed(rows)
    requires i < |if Sends(rows, call) then Filled(rows, call) else Prepared(rows, call)|
    ensures var p := Prepared(rows, call);
            i < |p| && if Sends(rows, call) && p[i].id == Find(p, call.user).value.id
                       then Filled(rows, call)[i] == p[i].(otp := call.generated) && p[i] == Find(p, call.user).value
                       else (if Sends(rows, call) then Filled(rows, call)[i] else p[i]) == p[i]
  {
    var p := Prepared(rows, call);
    PreparedHasTheRow(rows, call);
    hide Prepared, Find;
    var r := Find(p, call.user).value;
    if p[i].id == r.id {
      OnlyRowWithItsKey(p, p[i], r);
    }
  }

  lemma SweptIsThere(rows: seq<Row>, call: Call, r: Row)
    requires r in Swept(rows, call)
    ensures r in rows
  {
    PurgedRows(rows, call.now, r);
  }

  // How the rows before a call relate to those after it
  lemma RowsBefore(rows: seq<Row>, call: Call, r: Row) returns (r': Row)
    requires Keyed(rows) && r in rows && (Proceeds(call) ==> call.now <= r.timestamp)
    ensures r' in Run(rows, call).0 && Continues(r, r')
  {
    hide Finish, Find, Keyed, WithOtp, Run;
    if !Proceeds(call) {
      IdleCall(rows, call);
      return r;
    }
    CallEffect(rows, call);
    var p := Prepared(rows, call);
    PurgedRows(rows, call.now, r);
    assert r in Swept(rows, call);
    assert r in p;
    var i :| 0 <= i < |p| && p[i] == r;
    r' := Run(rows, call).0[i];
    FilledAt(rows, call, i);
  }

  // ---- whole runs ----

  lemma ShapeIsKept(rows: seq<Row>, call: Call)
    requires Keyed(rows) && OneRowEach(rows)
    ensures Keyed(Run(rows, call).0) && OneRowEach(Run(rows, call).0)
  {
    hide Finish, Run, Find, Prepared, Keyed, OneRowEach, WithOtp;
    if !Proceeds(call) {
      IdleCall(rows, call);
    } else {
      CallEffect(rows, call);
      PreparedHasTheRow(rows, call);
      if Sends(rows, call) {
        WithOtpIsKeyed(Prepared(rows, call), Find(Prepared(rows, call), call.user).value.id, call.generated.value);
      }
    }
  }

  // A row that is left after the sweep has not expired, if it is the caller's.
  lemma SweptIsFresh(calls: seq<Call>, rows: seq<Row>, call: Call, r: Row)
    requires Ordered(calls) && Sound(calls, rows) && r in Swept(rows, call) && r.user == call.user
    ensures call.now <= r.timestamp
  {
    hide Find, Purged, Keyed;
    PurgedRows(rows, call.now, r);
    var i :| 0 <= i < |rows| && rows[i] == r;
    FindIsTheRow(rows, i);
    assert Traced(calls, r);
    var k: nat :| Born(calls, k, r);
    assert calls[k].Valid();
    assert IsRegistered(rows, call.user, TimestampColumn);
  }

  lemma StillTraced(front: seq<Call>, calls: seq<Call>, r: Row)
    requires Traced(front, r) && front <= calls
    ensures Traced(calls, r)
  {
    var k: nat :| Born(front, k, r) && (r.otp.Some? ==> exists j: nat :: k <= j && Made(front, j, r));
    assert Born(calls, k, r);
    if r.otp.Some? {
      var j: nat :| k <= j && Made(front, j, r);
      assert Made(calls, j, r);
    }
  }

  lemma NewlyTraced(front: seq<Call>, call: Call, rows: seq<Row>, r': Row)
    requires Ordered(front + [call]) && Sound(front, rows) && Proceeds(call) && r' in Run(rows, call).0
    ensures Traced(front + [call], r')
  {
    hide Run, Find, Prepared, Keyed, OneRowEach, Swept;
    var calls, n := front + [call], |front|;
    assert calls[n] == call;
    assert Ordered(front) by {
      assert forall i :: 0 <= i < n ==> calls[i] == front[i];
    }
    RowsAfter(rows, call, r');
    if r' in rows {
      StillTraced(front, calls, r');
    } else if r :| r in Swept(rows, call) && Continues(r, r') {
      SweptIsThere(rows, call, r);
      StillTraced(front, calls, r);
      var k: nat :| Born(calls, k, r);
      assert Born(calls, k, r');
      if r'.otp.Some? {
        SweptIsFresh(front, rows, call, r);
        assert k <= n && Made(calls, n, r');
      }
    } else {
      assert Born(calls, n, r');
      assert r'.otp.Some? ==> Made(calls, n, r');
    }
  }

  // The table invariant holds after every run.
  lemma {:induction false} TableIsSound(calls: seq<Call>)
    requires Ordered(calls)
    ensures Sound(calls, After(calls))
  {
    if calls != [] {
      var n := |calls| - 1;
      var front, call := calls[..n], calls[n];
      assert calls == front + [call];
      TableIsSound(front);
      var rows := After(front);
      ShapeIsKept(rows, call);
      hide Run, Keyed, OneRowEach, Traced;
      forall r | r in After(calls) ensures Traced(calls, r) {
        if Proceeds(call) {
          NewlyTraced(front, call, rows, r);
        } else {
          IdleCall(rows, call);
          StillTraced(front, calls, r);
        }
      }
    }
  }

  lemma UsedRowIsFresh(front: seq<Call>, rows: seq<Row>, call: Call, r: Row)
    requires Ordered(front) && Sound(front, rows) && Proceeds(call) && call.Valid()
    requires r in Run(rows, call).0 && r.user == call.user
    ensures call.now <= r.timestamp
  {
    hide Run, Keyed, OneRowEach, Find, Swept;
    RowsAfter(rows, call, r);
    if s :| s in Swept(rows, call) && Continues(s, r) {
      SweptIsFresh(front, rows, call, s);
    }
  }

  lemma Origin(calls: seq<Call>, r: Row) returns (k: nat, j: nat)
    requires Ordered(calls) && Traced(calls, r) && r.otp.Some?
    ensures Born(calls, k, r) && k <= j && Made(calls, j, r)
    ensures r.timestamp - calls[j].now <= 3600 && Copied(r.otp.value) == r.otp.value
  {
    k :| Born(calls, k, r) && exists i: nat :: k <= i && Made(calls, i, r);
    j :| k <= j && Made(calls, j, r);
    assert calls[k].Valid() && calls[j].Valid();
  }

  lemma ComparedRow(rows: seq<Row>, call: Call) returns (r: Row)
    requires Keyed(rows) && Run(rows, call).1.compared.Some?
    ensures Proceeds(call) && r in Run(rows, call).0 && r.user == call.user && r.otp.Some?
    ensures var end := Run(rows, call).1;
            && end.compared == Some(Copied(r.otp.value)) && call.input.Some?
            && (end.ret == Success <==>
                Take(Copied(r.otp.value), call.otpLen) == Take(call.input.value, call.otpLen))
  {
    hide Run, Keyed, Find, Copied, Take, StrnEqual;
    if !Proceeds(call) {
      IdleCall(rows, call);
    }
    CallEffect(rows, call);
    r := Find(Run(rows, call).0, call.user).value;
    StrnEqualIsTake(Copied(r.otp.value), call.input.value, call.otpLen);
  }

  // An accepted token is the OTP of a row r whose time has not run out, which a call k of the
  // same user has inserted and a call j not before that has filled, at most an hour ago.
  lemma AcceptedOtpIsFresh(calls: seq<Call>) returns (r: Row, k: nat, j: nat)
    requires Ordered(calls) && calls != []
    requires var end := Run(After(calls[..|calls| - 1]), calls[|calls| - 1]).1;
             end.ret == Success && end.compared.Some?
    ensures r in After(calls) && r.otp.Some? && k <= j < |calls|
    ensures var call := calls[|calls| - 1];
            && r.user == call.user == calls[k].user == calls[j].user
            && r.timestamp == calls[k].now + 60 * calls[k].expir && call.now <= r.timestamp
            && calls[j].generated == r.otp && calls[j].sent == SmsOk && call.now - calls[j].now <= 3600
            && call.input.Some? && Take(r.otp.value, call.otpLen) == Take(call.input.value, call.otpLen)
  {
    hide Run, Keyed, OneRowEach, Traced, Born, Made, Take, Copied, Call.Valid;
    var n := |calls| - 1;
    var front, call := calls[..n], calls[n];
    assert Ordered(front) && call.Valid();
    hide Ordered;
    TableIsSound(calls);
    TableIsSound(front);
    r := ComparedRow(After(front), call);
    UsedRowIsFresh(front, After(front), call, r);
    k, j := Origin(calls, r);
    BornAndMade(calls, k, j, r);
  }

  lemma BornAndMade(calls: seq<Call>, k: nat, j: nat, r: Row)
    requires Born(calls, k, r) && Made(calls, j, r)
    ensures k < |calls| && j < |calls| && r.user == calls[k].user == calls[j].user
    ensures r.timestamp == calls[k].now + 60 * calls[k].expir
    ensures calls[j].generated == r.otp && calls[j].sent == SmsOk
  {
  }

  // When a call sends an OTP, exactly the inputs that begin with it let the user in.
  lemma SentOtpDecides(rows: seq<Row>, call: Call)
    requires Keyed(rows) && call.Valid() && Sends(rows, call)
    ensures Run(rows, call).1.ret == Success <==> call.input.Some? && call.generated.value <= call.input.value
  {
    hide Finish, Keyed, Find, Prepared, Copied, StrnEqual, WithOtp;
    PreparedHasTheRow(rows, call);
    ToFindUser(rows, call);
    ToFindOtp(rows, call);
    var p, otp := Prepared(rows, call), call.generated.value;
    var row := Find(p, call.user).value;
    OneStep(p, call, FindOtp, Always);
    OneStep(p, call, Send, Always);
    OneStep(p, call, Register(otp), Always);
    FindWithOtp(p, call.user, row.id, otp);
    var q := Filled(rows, call);
    OneStep(q, call, Prompt, Always);
    if call.input.Some? {
      OneStep(q, call, Fetch(call.input.value), Always);
      ShortIsCopied(otp);
      AcceptedInputs(otp, call.input.value);
    }
  }

  lemma ShortIsCopied(otp: bytes)
    requires |otp| <= OTPLEN_MAX
    ensures Copied(otp) == otp
  {
  }

  // ---- an OTP stays for the lifetime of its row ----

  // A row is known by its key and its timestamp; a key alone is used again after a purge.
  predicate SameRow(r: Row, r': Row) {
    r.id == r'.id && r.timestamp == r'.timestamp
  }

  // Until the clock passes its timestamp, a row stays.
  lemma {:induction false} RowStays(calls: seq<Call>, i: nat, r: Row) returns (r': Row)
    requires Ordered(calls) && i <= |calls| && r in After(calls[..i])
    requires forall j :: i <= j < |calls| ==> calls[j].now <= r.timestamp
    ensures r' in After(calls) && Continues(r, r')
    decreases |calls|
  {
    hide Run, After, Call.Valid;
    if i == |calls| {
      assert calls[..i] == calls;
      r' := r;
    } else {
      var n := |calls| - 1;
      var front := calls[..n];
      assert front[..i] == calls[..i];
      r' := RowStays(front, i, r);
      AfterOneMore(calls);
      r' := RowStaysOnce(front, calls[n], r');
    }
  }

  lemma AfterOneMore(calls: seq<Call>)
    requires calls != []
    ensures After(calls) == Run(After(calls[..|calls| - 1]), calls[|calls| - 1]).0
  {
    hide Run;
  }

  lemma RowStaysOnce(calls: seq<Call>, call: Call, r: Row) returns (r': Row)
    requires Ordered(calls) && r in After(calls) && call.now <= r.timestamp
    ensures r' in Run(After(calls), call).0 && Continues(r, r')
  {
    hide Run, OneRowEach, Traced, Proceeds, After, Keyed, Ordered;
    TableIsSound(calls);
    r' := RowsBefore(After(calls), call, r);
  }

  // Once there, the OTP of a row is never replaced.
  lemma {:induction false} OtpIsStable(calls: seq<Call>, i: nat, r: Row, r': Row)
    requires Ordered(calls) && i <= |calls| && r in After(calls[..i]) && r' in After(calls) && SameRow(r, r')
    ensures Continues(r, r')
    decreases |calls|
  {
    hide Run, Keyed, OneRowEach, Traced, Swept;
    TableIsSound(calls);
    if i == |calls| {
      assert calls[..i] == calls;
      OnlyRowWithItsKey(After(calls), r, r');
      return;
    }
    var n := |calls| - 1;
    var front, call := calls[..n], calls[n];
    assert front[..i] == calls[..i];
    TableIsSound(front);
    if !Proceeds(call) {
      IdleCall(After(front), call);
      OtpIsStable(front, i, r, r');
      return;
    }
    RowsAfter(After(front), call, r');
    if s :| s in Swept(After(front), call) && Continues(s, r') {
      SweptIsThere(After(front), call, s);
      OtpIsStable(front, i, r, s);
    } else {
      var t := RowStays(calls, i, r);
      OnlyRowWithItsKey(After(calls), t, r');
    }
  }

  // A second OTP is sent to a user only when the row of the first has expired.
  lemma OneOtpPerRow(calls: seq<Call>, i: nat, j: nat)
    requires Ordered(calls) && i < j < |calls| && calls[i].user == calls[j].user
    requires Sends(After(calls[..i]), calls[i]) && Sends(After(calls[..j]), calls[j])
    ensures exists r :: r in After(calls[..i + 1]) && r.user == calls[j].user && r.otp == calls[i].generated
                        && r.timestamp < calls[j].now
  {
    hide Run, Keyed, OneRowEach, Traced, Find, Prepared;
    var r := SentRow(calls, i);
    if calls[j].now <= r.timestamp {
      assert calls[..j][..i + 1] == calls[..i + 1];
      var r' := RowStays(calls[..j], i + 1, r);
      TableIsSound(calls[..j]);
      RowPreventsSending(After(calls[..j]), calls[j], r');
    }
  }

  // The row in which call i registers the OTP it sends
  lemma SentRow(calls: seq<Call>, i: nat) returns (r: Row)
    requires Ordered(calls) && i < |calls| && Sends(After(calls[..i]), calls[i])
    ensures r in After(calls[..i + 1]) && r.user == calls[i].user && r.otp == calls[i].generated
  {
    hide Run, Keyed, OneRowEach, Traced, Find, Prepared;
    var rows, call := After(calls[..i]), calls[i];
    assert calls[..i + 1][..i] == calls[..i];
    TableIsSound(calls[..i]);
    CallEffect(rows, call);
    PreparedHasTheRow(rows, call);
    var p := Prepared(rows, call);
    FindWithOtp(p, call.user, Find(p, call.user).value.id, call.generated.value);
    r := Find(Filled(rows, call), call.user).value;
  }

  lemma RowPreventsSending(rows: seq<Row>, call: Call, r: Row)
    requires Keyed(rows) && OneRowEach(rows)
    requires r in rows && r.user == call.user && call.now <= r.timestamp && r.otp.Some?
    ensures Find(Prepared(rows, call), call.user) == Some(r) && !Sends(rows, call)
  {
    hide Purged, Find;
    PreparedHasTheRow(rows, call);
    PurgedKeepsOneRowEach(rows, call.now);
    PurgedRows(rows, call.now, r);
    var s := Swept(rows, call);
    var i :| 0 <= i < |s| && s[i] == r;
    FindIsTheRow(s, i);
  }

  // While the row of a user has an OTP and time is left, exactly the inputs that agree
  // with it over the configured length let the user in, and a success does not use it up.
  lemma PendingOtpDecides(calls: seq<Call>, call: Call, r: Row)
    requires Ordered(calls) && r in After(calls) && r.user == call.user && r.otp.Some?
    requires Proceeds(call) && call.now <= r.timestamp
    ensures var end := Run(After(calls), call).1;
            end.ret == Success <==>
              call.input.Some? && Take(r.otp.value, call.otpLen) == Take(call.input.value, call.otpLen)
    ensures r in Run(After(calls), call).0
  {
    hide Finish, Keyed, OneRowEach, Traced, Find, Prepared, Take, Copied, StrnEqual;
    var rows := After(calls);
    TableIsSound(calls);
    RowPreventsSending(rows, call, r);
    var k, j := Origin(calls, r);
    ToFindUser(rows, call);
    ToFindOtp(rows, call);
    var p := Prepared(rows, call);
    OneStep(p, call, FindOtp, Always);
    OneStep(p, call, Prompt, Always);
    if call.input.Some? {
      OneStep(p, call, Fetch(call.input.value), Always);
      StrnEqualIsTake(r.otp.value, call.input.value, call.otpLen);
    }
  }
}
