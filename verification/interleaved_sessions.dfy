/** Sessions of many users that take turns: each step, with its call of a table function,
    is atomic, and whether a table function can open the database is open every time. */
module Interleaved {
  import opened Bytes
  import opened OrderedMap
  import opened Otp
  import opened StatusTable
  import opened Session
  import SerialSessions
  import Outcomes

  // Sent(i): session i has sent its OTP. Compared(i): it has compared what was typed.
  datatype Event = Sent(i: nat) | Compared(i: nat)

  // Session i is calls[i], about to do phases[i].
  datatype State = State(rows: seq<Row>, calls: seq<Call>, phases: seq<Phase>, log: seq<Event>)

  datatype Action = Arrive(call: Call) | Go(i: nat, opens: bool)

  const INITIAL := State([], [], [], [])

  function EventOf(i: nat, phase: Phase, next: Phase): seq<Event> {
    if phase.Send? && next.Register? then [Sent(i)]
    else if next.Over? && next.compared.Some? then [Compared(i)]
    else []
  }

  function Act(s: State, a: Action): State {
    match a
    case Arrive(call) =>
      s.(calls := s.calls + [call], phases := s.phases + [Begin])
    case Go(i, opens) =>
      if i >= |s.phases| || i >= |s.calls| || s.phases[i].Over? then s
      else
        var next := Step(s.rows, s.calls[i], s.phases[i], opens);
        State(next.0, s.calls, s.phases[i := next.1], s.log + EventOf(i, s.phases[i], next.1))
  }

  function Reach(actions: seq<Action>): State {
    if actions == [] then INITIAL
    else
      var last := |actions| - 1;
      Act(Reach(actions[..last]), actions[last])
  }

  predicate Allowed(actions: seq<Action>) {
    forall i :: 0 <= i < |actions| && actions[i].Arrive? ==> actions[i].call.Valid()
  }

  // Session j of the user has generated the OTP and sent it.
  predicate Sender(calls: seq<Call>, log: seq<Event>, j: nat, user: bytes, otp: bytes) {
    && j < |calls| && calls[j].user == user && calls[j].Valid()
    && calls[j].generated == Some(otp) && calls[j].sent == SmsOk && Sent(j) in log
  }

  ghost predicate HasSender(calls: seq<Call>, log: seq<Event>, user: bytes, otp: bytes) {
    exists j: nat :: Sender(calls, log, j, user, otp)
  }

  // Before session i compared, the OTP had been sent to its user.
  ghost predicate SentFirst(calls: seq<Call>, log: seq<Event>, i: nat, otp: bytes) {
    i < |calls| && exists b: nat :: b < |log| && log[b] == Compared(i) && HasSender(calls, log[..b], calls[i].user, otp)
  }

  ghost predicate PhaseIsSound(calls: seq<Call>, log: seq<Event>, i: nat, phase: Phase)
    requires i < |calls|
  {
    match phase
    case Register(otp) => Sender(calls, log, i, calls[i].user, otp)
    case Fetch(input) => calls[i].input == Some(input)
    case Over(ret, Some(otp)) =>
      && SentFirst(calls, log, i, otp) && calls[i].input.Some?
      && (ret == Success <==> StrnEqual(otp, calls[i].input.value, calls[i].otpLen))
    case Over(Success, None) => calls[i].Excepted() || calls[i].Relaxes()
    case _ => true
  }

  ghost predicate RowsAreSound(s: State) {
    Keyed(s.rows) && forall r :: r in s.rows && r.otp.Some? ==> HasSender(s.calls, s.log, r.user, r.otp.value)
  }

  ghost predicate Sound(s: State) {
    && |s.phases| == |s.calls| && RowsAreSound(s)
    && (forall i :: 0 <= i < |s.calls| ==> s.calls[i].Valid())
    && forall i :: 0 <= i < |s.calls| ==> PhaseIsSound(s.calls, s.log, i, s.phases[i])
  }

  // ---- what is known stays known ----

  lemma SenderStays(calls: seq<Call>, log: seq<Event>, calls': seq<Call>, log': seq<Event>, user: bytes, otp: bytes)
    requires HasSender(calls, log, user, otp) && calls <= calls' && log <= log'
    ensures HasSender(calls', log', user, otp)
  {
    var j: nat :| Sender(calls, log, j, user, otp);
    assert Sender(calls', log', j, user, otp);
  }

  lemma PhaseStaysSound(calls: seq<Call>, log: seq<Event>, calls': seq<Call>, log': seq<Event>, i: nat, phase: Phase)
    requires i < |calls| && PhaseIsSound(calls, log, i, phase) && calls <= calls' && log <= log'
    ensures PhaseIsSound(calls', log', i, phase)
  {
    if phase.Over? && phase.compared.Some? {
      var otp := phase.compared.value;
      var b: nat :| b < |log| && log[b] == Compared(i) && HasSender(calls, log[..b], calls[i].user, otp);
      SenderStays(calls, log[..b], calls', log'[..b], calls[i].user, otp);
      assert log'[b] == Compared(i);
    }
  }

  lemma RowsStaySound(s: State, calls': seq<Call>, log': seq<Event>)
    requires RowsAreSound(s) && s.calls <= calls' && s.log <= log'
    ensures RowsAreSound(State(s.rows, calls', s.phases, log'))
  {
    forall r | r in s.rows && r.otp.Some? ensures HasSender(calls', log', r.user, r.otp.value) {
      SenderStays(s.calls, s.log, calls', log', r.user, r.otp.value);
    }
  }

  // ---- one step ----

  // The step may change the rows: only Register writes an OTP.
  lemma StepKeepsRows(s: State, i: nat, opens: bool)
    requires RowsAreSound(s) && i < |s.calls| && i < |s.phases| && !s.phases[i].Over?
    requires s.calls[i].Valid() && PhaseIsSound(s.calls, s.log, i, s.phases[i])
    ensures RowsAreSound(s.(rows := Step(s.rows, s.calls[i], s.phases[i], opens).0))
  {
    hide Find, Sender;
    var call, phase := s.calls[i], s.phases[i];
    match phase {
      case Purge =>
        PurgedIsKeyed(s.rows, call.now);
        forall r | r in Purged(s.rows, call.now) ensures r in s.rows {
          PurgedRows(s.rows, call.now, r);
        }
      case Insert =>
        InsertedIsKeyed(s.rows, call.user, call.now + 60 * call.expir);
      case Register(otp) =>
        if opens && Find(s.rows, call.user).Some? {
          var row := Find(s.rows, call.user).value;
          var rows := WithOtp(s.rows, row.id, otp);
          WithOtpIsKeyed(s.rows, row.id, otp);
          assert HasSender(s.calls, s.log, call.user, otp);
          forall r | r in rows && r.otp.Some? ensures HasSender(s.calls, s.log, r.user, r.otp.value) {
            var k :| 0 <= k < |rows| && rows[k] == r;
            if s.rows[k].id == row.id {
              OnlyRowWithItsKey(s.rows, s.rows[k], row);
            }
          }
        }
      case _ =>
    }
  }

  lemma StepKeepsPhase(s: State, i: nat, opens: bool)
    requires RowsAreSound(s) && i < |s.calls| && i < |s.phases| && !s.phases[i].Over?
    requires s.calls[i].Valid() && PhaseIsSound(s.calls, s.log, i, s.phases[i])
    ensures var next := Step(s.rows, s.calls[i], s.phases[i], opens).1;
            PhaseIsSound(s.calls, s.log + EventOf(i, s.phases[i], next), i, next)
  {
    hide Find, Purged, Inserted, WithOtp, StrnEqual;
    var call, phase := s.calls[i], s.phases[i];
    var next := Step(s.rows, call, phase, opens).1;
    if phase.Fetch? && next.compared.Some? {
      var row := Find(s.rows, call.user).value;
      var otp := row.otp.value;
      var b, log' := |s.log|, s.log + [Compared(i)];
      assert HasSender(s.calls, s.log, call.user, otp);
      assert |otp| <= OTPLEN_MAX by {
        var j: nat :| Sender(s.calls, s.log, j, call.user, otp);
      }
      assert log'[b] == Compared(i) && log'[..b] == s.log;
    }
  }

  lemma StepIsSound(s: State, a: Action)
    requires Sound(s) && (a.Arrive? ==> a.call.Valid())
    ensures Sound(Act(s, a))
  {
    hide RowsAreSound, PhaseIsSound, Step, EventOf, Call.Valid;
    var t := Act(s, a);
    if a.Go? && a.i < |s.calls| && !s.phases[a.i].Over? {
      StepKeepsRows(s, a.i, a.opens);
      StepKeepsPhase(s, a.i, a.opens);
      RowsStaySound(s.(rows := t.rows), t.calls, t.log);
      PhasesDoNotMatter(State(t.rows, t.calls, s.phases, t.log), t.phases);
    } else {
      RowsStaySound(s, t.calls, t.log);
      PhasesDoNotMatter(State(s.rows, t.calls, s.phases, t.log), t.phases);
    }
    forall i | 0 <= i < |t.calls| ensures PhaseIsSound(t.calls, t.log, i, t.phases[i]) {
      if i == |s.calls| {
        BeginIsSound(t.calls, t.log, i);
      } else if t.phases[i] == s.phases[i] {
        PhaseStaysSound(s.calls, s.log, t.calls, t.log, i, s.phases[i]);
      }
    }
  }

  lemma BeginIsSound(calls: seq<Call>, log: seq<Event>, i: nat)
    requires i < |calls|
    ensures PhaseIsSound(calls, log, i, Begin)
  {
  }

  lemma PhasesDoNotMatter(s: State, phases: seq<Phase>)
    requires RowsAreSound(s)
    ensures RowsAreSound(s.(phases := phases))
  {
  }

  lemma {:induction false} RunIsSound(actions: seq<Action>)
    requires Allowed(actions)
    ensures Sound(Reach(actions))
  {
    if actions != [] {
      var last := |actions| - 1;
      RunIsSound(actions[..last]);
      StepIsSound(Reach(actions[..last]), actions[last]);
    }
  }

  // ---- the results ----

  // However the sessions take turns: one that succeeds by comparison was given, over the
  // configured length, an OTP that had been generated and sent in a session of that user.
  lemma Provenance(actions: seq<Action>, i: nat, otp: bytes) returns (j: nat, a: nat, b: nat)
    requires Allowed(actions)
    requires var s := Reach(actions);
             i < |s.phases| && s.phases[i] == Over(Success, Some(otp))
    ensures var s := Reach(actions);
            && i < |s.calls| && j < |s.calls| && a < b < |s.log| && s.log[a] == Sent(j) && s.log[b] == Compared(i)
            && s.calls[j].user == s.calls[i].user
            && s.calls[j].generated == Some(otp) && s.calls[j].sent == SmsOk
            && s.calls[i].input.Some? && Take(otp, s.calls[i].otpLen) == Take(s.calls[i].input.value, s.calls[i].otpLen)
  {
    RunIsSound(actions);
    var s := Reach(actions);
    hide Reach, Call.Valid, RowsAreSound, Take, StrnEqual;
    b :| b < |s.log| && s.log[b] == Compared(i) && HasSender(s.calls, s.log[..b], s.calls[i].user, otp);
    j :| Sender(s.calls, s.log[..b], j, s.calls[i].user, otp);
    a :| a < b && s.log[a] == Sent(j);
    StrnEqualIsTake(otp, s.calls[i].input.value, s.calls[i].otpLen);
  }

  // The only other ways in
  lemma SuccessWithoutComparison(actions: seq<Action>, i: nat)
    requires Allowed(actions)
    requires var s := Reach(actions);
             i < |s.phases| && s.phases[i] == Over(Success, None)
    ensures i < |Reach(actions).calls|
    ensures var call := Reach(actions).calls[i];
            var e := call.except;
            || (e.Some? && |e.value| <= |call.user| && forall k :: 0 <= k < |e.value| ==> call.user[k] == e.value[k])
            || (call.relaxed && call.sent in {GatewayErr, Conn2ServerErr})
  {
    RunIsSound(actions);
    hide Reach, RowsAreSound;
    assert PhaseIsSound(Reach(actions).calls, Reach(actions).log, i, Over(Success, None));
    Outcomes.SparedIsExcepted(Reach(actions).calls[i]);
  }

  // The log tells of a sending where an OTP was generated and accepted by the gateway, of a
  // comparison where an OTP was found, and of nothing else.
  lemma StepIsLogged(s: State, i: nat, opens: bool)
    requires i < |s.calls| == |s.phases| && !s.phases[i].Over?
    ensures var call, phase, s' := s.calls[i], s.phases[i], Act(s, Go(i, opens));
            var r := Find(s.rows, call.user);
            && s'.log == s.log + (if phase.Send? && call.generated.Some? && call.sent == SmsOk then [Sent(i)]
                                  else if phase.Fetch? && opens && r.Some? && r.value.otp.Some? then [Compared(i)]
                                  else [])
            && s'.calls == s.calls && forall k :: 0 <= k < |s.phases| && k != i ==> s'.phases[k] == s.phases[k]
  {
    hide Find, Purged, Inserted, WithOtp, StrnEqual;
  }

  // ---- what overlapping sessions can break ----

  lemma Next(actions: seq<Action>, a: Action)
    requires Allowed(actions) && (a.Arrive? ==> a.call.Valid())
    ensures Allowed(actions + [a]) && Reach(actions + [a]) == Act(Reach(actions), a)
  {
    assert (actions + [a])[..|actions|] == actions;
  }

  // The run leaves two sessions, a and b, at these phases.
  predicate At(actions: seq<Action>, a: Call, b: Call, rows: seq<Row>, pa: Phase, pb: Phase) {
    Allowed(actions) && var s := Reach(actions); s.rows == rows && s.calls == [a, b] && s.phases == [pa, pb]
  }

  lemma Arrivals(a: Call, b: Call)
    requires a.Valid() && b.Valid()
    ensures At([Arrive(a), Arrive(b)], a, b, [], Begin, Begin)
  {
    hide Call.Valid;
    Next([], Arrive(a));
    Next([Arrive(a)], Arrive(b));
    assert [] + [Arrive(a)] == [Arrive(a)] && [Arrive(a)] + [Arrive(b)] == [Arrive(a), Arrive(b)];
  }

  lemma TurnA(actions: seq<Action>, a: Call, b: Call, rows: seq<Row>, pa: Phase, pb: Phase, rows': seq<Row>, pa': Phase)
    returns (r: seq<Action>)
    requires At(actions, a, b, rows, pa, pb) && !pa.Over? && Step(rows, a, pa, true) == (rows', pa')
    ensures At(r, a, b, rows', pa', pb)
  {
    hide Reach, Step;
    Next(actions, Go(0, true));
    r := actions + [Go(0, true)];
  }

  lemma TurnB(actions: seq<Action>, a: Call, b: Call, rows: seq<Row>, pa: Phase, pb: Phase, rows': seq<Row>, pb': Phase)
    returns (r: seq<Action>)
    requires At(actions, a, b, rows, pa, pb) && !pb.Over? && Step(rows, b, pb, true) == (rows', pb')
    ensures At(r, a, b, rows', pa, pb')
  {
    hide Reach, Step;
    Next(actions, Go(1, true));
    r := actions + [Go(1, true)];
  }

  // Two first sessions of a user
  predicate Rivals(a: Call, b: Call) {
    && a.Valid() && b.Valid() && a.user == b.user
    && !a.Excepted() && a.gecos && !b.Excepted() && b.gecos
    && a.generated.Some? && a.sent == SmsOk && b.generated.Some? && b.sent == SmsOk
  }

  function RivalRows(a: Call, b: Call): seq<Row> {
    [Row(1, a.user, None, a.now + 60 * a.expir), Row(2, b.user, None, b.now + 60 * b.expir)]
  }

  lemma BothFindNoRow(a: Call, b: Call) returns (actions: seq<Action>)
    requires Rivals(a, b)
    ensures At(actions, a, b, [], Insert, Insert)
  {
    Arrivals(a, b);
    hide At, Call.Valid, Call.Excepted, Purged, Inserted, WithOtp, StrnEqual;
    actions := [Arrive(a), Arrive(b)];
    actions := TurnA(actions, a, b, [], Begin, Begin, [], ReadTimestamp);
    actions := TurnA(actions, a, b, [], ReadTimestamp, Begin, [], FindUser);
    actions := TurnA(actions, a, b, [], FindUser, Begin, [], Insert);
    actions := TurnB(actions, a, b, [], Insert, Begin, [], ReadTimestamp);
    actions := TurnB(actions, a, b, [], Insert, ReadTimestamp, [], FindUser);
    actions := TurnB(actions, a, b, [], Insert, FindUser, [], Insert);
  }

  lemma RivalInsertions(a: Call, b: Call)
    ensures var rows, timeA, timeB := RivalRows(a, b), a.now + 60 * a.expir, b.now + 60 * b.expir;
            Inserted([], a.user, timeA) == [rows[0]] && Inserted([rows[0]], b.user, timeB) == rows
  {
  }

  // Both look for a row before either inserts one: the user gets two rows.
  lemma TwoRowsForAUser(a: Call, b: Call) returns (actions: seq<Action>)
    requires Rivals(a, b)
    ensures At(actions, a, b, RivalRows(a, b), FindOtp, FindOtp) && !OneRowEach(RivalRows(a, b))
  {
    hide At, Inserted, Call.Valid, Call.Excepted;
    actions := BothFindNoRow(a, b);
    var rows := RivalRows(a, b);
    RivalInsertions(a, b);
    actions := TurnA(actions, a, b, [], Insert, Insert, [rows[0]], FindOtp);
    actions := TurnB(actions, a, b, [rows[0]], FindOtp, Insert, rows, FindOtp);
    assert rows[0].user == rows[1].user;
  }

  // Both then send an OTP, and the second takes the place of the first: the user who
  // types the one that was sent first is refused.
  lemma SentOtpIsRefused(a: Call, b: Call) returns (actions: seq<Action>)
    requires Rivals(a, b) && a.input == a.generated
    requires !StrnEqual(b.generated.value, a.generated.value, a.otpLen)
    ensures Allowed(actions) && Reach(actions).calls == [a, b]
    ensures Reach(actions).phases == [Over(AuthErr, b.generated), Prompt]
  {
    actions := TwoRowsForAUser(a, b);
    hide Reach, StrnEqual, Find, WithOtp;
    var rows, otpA, otpB := RivalRows(a, b), a.generated.value, b.generated.value;
    RivalsShareTheSecondRow(a, b);
    FindWithOtp(rows, a.user, 2, otpA);
    FindWithOtp(WithOtp(rows, 2, otpA), a.user, 2, otpB);
    var rowsA := WithOtp(rows, 2, otpA);
    var rowsB := WithOtp(rowsA, 2, otpB);
    assert Copied(otpB) == otpB;
    actions := ThenBothSend(actions, a, b, rows, rowsA, rowsB);
    actions := TurnA(actions, a, b, rowsB, Prompt, Prompt, rowsB, Fetch(otpA));
    actions := TurnA(actions, a, b, rowsB, Fetch(otpA), Prompt, rowsB, Over(AuthErr, Some(otpB)));
  }

  lemma RivalsShareTheSecondRow(a: Call, b: Call)
    requires Rivals(a, b)
    ensures Find(RivalRows(a, b), a.user) == Some(RivalRows(a, b)[1])
  {
  }

  lemma ThenBothSend(actions: seq<Action>, a: Call, b: Call, rows: seq<Row>, rowsA: seq<Row>, rowsB: seq<Row>)
    returns (r: seq<Action>)
    requires Rivals(a, b) && At(actions, a, b, rows, FindOtp, FindOtp)
    requires var row := Find(rows, a.user);
             row.Some? && row.value.otp == None && rowsA == WithOtp(rows, row.value.id, a.generated.value)
    requires var row := Find(rowsA, a.user);
             row.Some? && rowsB == WithOtp(rowsA, row.value.id, b.generated.value)
    ensures At(r, a, b, rowsB, Prompt, Prompt)
  {
    hide At, Call.Valid, Call.Excepted, Find, WithOtp;
    var otpA, otpB := a.generated.value, b.generated.value;
    r := TurnA(actions, a, b, rows, FindOtp, FindOtp, rows, Send);
    r := TurnB(r, a, b, rows, Send, FindOtp, rows, Send);
    r := TurnA(r, a, b, rows, Send, Send, rows, Register(otpA));
    r := TurnB(r, a, b, rows, Register(otpA), Send, rows, Register(otpB));
    r := TurnA(r, a, b, rows, Register(otpA), Register(otpB), rowsA, Prompt);
    r := TurnB(r, a, b, rowsA, Prompt, Register(otpB), rowsB, Prompt);
  }

  // A row that had an OTP has another one.
  ghost predicate Replaced(rows: seq<Row>, rows': seq<Row>) {
    exists r, r' :: r in rows && r' in rows' && r'.id == r.id && r.otp.Some? && r'.otp != r.otp
  }

  // A step replaces an OTP exactly if it registers one for a user whose row has another
  // already: no step before it looks at the row again.
  lemma OtpIsReplacedExactly(s: State, i: nat, opens: bool)
    requires Keyed(s.rows) && i < |s.calls| == |s.phases| && !s.phases[i].Over?
    ensures Replaced(s.rows, Act(s, Go(i, opens)).rows) <==>
              && s.phases[i].Register? && opens
              && var r := Find(s.rows, s.calls[i].user);
                 r.Some? && r.value.otp.Some? && r.value.otp != Some(s.phases[i].otp)
  {
    hide Find, Keyed, Replaced;
    var rows, call := s.rows, s.calls[i];
    NothingIsReplaced(rows, rows);
    match s.phases[i] {
      case Purge =>
        forall r | r in Purged(rows, call.now) ensures r in rows {
          PurgedRows(rows, call.now, r);
        }
        NothingIsReplaced(rows, Purged(rows, call.now));
      case Insert =>
        NewRowReplacesNothing(rows, call.user, call.now + 60 * call.expir);
      case Register(otp) =>
        if Find(rows, call.user).Some? {
          WithOtpReplaces(rows, Find(rows, call.user).value, otp);
        }
      case _ =>
    }
  }

  lemma NothingIsReplaced(rows: seq<Row>, rows': seq<Row>)
    requires Keyed(rows) && forall r :: r in rows' ==> r in rows
    ensures !Replaced(rows, rows')
  {
    hide Keyed;
    forall r, r' | r in rows && r' in rows' && r'.id == r.id ensures r'.otp == r.otp {
      OnlyRowWithItsKey(rows, r, r');
    }
  }

  lemma NewRowReplacesNothing(rows: seq<Row>, user: bytes, timestamp: int)
    requires Keyed(rows)
    ensures !Replaced(rows, Inserted(rows, user, timestamp))
  {
    InsertedIsKeyed(rows, user, timestamp);
    hide Keyed;
    forall r, r' | r in rows && r' in Inserted(rows, user, timestamp) && r'.id == r.id ensures r'.otp == r.otp {
      assert r' in rows || r'.id == NextId(rows);
      OnlyRowWithItsKey(rows, r, r');
    }
  }

  lemma WithOtpReplaces(rows: seq<Row>, row: Row, otp: bytes)
    requires Keyed(rows) && row in rows
    ensures Replaced(rows, WithOtp(rows, row.id, otp)) <==> row.otp.Some? && row.otp != Some(otp)
  {
    var rows' := WithOtp(rows, row.id, otp);
    hide Keyed, WithOtp;
    var k :| 0 <= k < |rows| && rows[k] == row;
    assert rows'[k] == row.(otp := Some(otp)) && rows'[k] in rows';
    forall r, r' | r in rows && r' in rows' && r'.id == r.id && r.otp.Some? && r'.otp != r.otp
      ensures r == row
    {
      var j :| 0 <= j < |rows'| && rows'[j] == r';
      OnlyRowWithItsKey(rows, rows[j], r);
      if r.id == row.id {
        OnlyRowWithItsKey(rows, r, row);
      }
    }
  }

  // The comparison does not look at the timestamp: as long as no session has purged the
  // row, an answer is accepted even if another session has begun after the row expired.
  lemma LateAnswerIsAccepted(actions: seq<Action>, i: nat, row: Row, b: Call) returns (r: seq<Action>)
    requires Allowed(actions) && b.Valid()
    requires var s := Reach(actions);
             && i < |s.calls| == |s.phases| && s.phases[i] == Prompt && Find(s.rows, s.calls[i].user) == Some(row)
             && row.otp.Some? && |row.otp.value| <= VAR_MAXLEN && row.timestamp < b.now
             && s.calls[i].input.Some? && StrnEqual(row.otp.value, s.calls[i].input.value, s.calls[i].otpLen)
    ensures Allowed(r) && |r| == |actions| + 3 && r[..|actions| + 1] == actions + [Arrive(b)]
    ensures i < |Reach(r).phases| && Reach(r).phases[i] == Over(Success, row.otp)
  {
    hide Reach, StrnEqual, Find;
    Next(actions, Arrive(b));
    var one := actions + [Arrive(b)];
    Next(one, Go(i, true));
    var two := one + [Go(i, true)];
    Next(two, Go(i, true));
    r := two + [Go(i, true)];
    assert Copied(row.otp.value) == row.otp.value;
  }

  // ---- sessions that do not overlap are a special case ----

  // From any state, session i can go on alone to its end, as Finish describes.
  lemma {:induction false} Uninterrupted(actions: seq<Action>, i: nat, opens: Phase -> bool) returns (r: seq<Action>)
    requires Allowed(actions)
    requires i < |Reach(actions).calls| && i < |Reach(actions).phases|
    ensures Allowed(r)
    ensures var s, t := Reach(actions), Reach(r);
            var end := Finish(s.rows, s.calls[i], s.phases[i], opens);
            t.rows == end.0 && t.calls == s.calls && t.phases == s.phases[i := end.1]
    decreases Rank(Reach(actions).phases[i])
  {
    hide Reach, Finish, Step, EventOf, Rank;
    var s := Reach(actions);
    var phase := s.phases[i];
    if phase.Over? {
      r := actions;
      OverIsTheEnd(s.rows, s.calls[i], phase, opens);
    } else {
      var a := Go(i, opens(phase));
      Next(actions, a);
      OneStep(s.rows, s.calls[i], phase, opens);
      r := Uninterrupted(actions + [a], i, opens);
      var next := Step(s.rows, s.calls[i], phase, opens(phase));
      if next.1.Over? {
        OverIsTheEnd(next.0, s.calls[i], next.1, opens);
      }
    }
  }

  lemma OverIsTheEnd(rows: seq<Row>, call: Call, phase: Phase, opens: Phase -> bool)
    requires phase.Over?
    ensures Finish(rows, call, phase, opens) == (rows, phase)
  {
  }

  // The state in which the calls have been taken one after the other
  predicate TakenInTurn(s: State, calls: seq<Call>) {
    && s.rows == SerialSessions.After(calls) && s.calls == calls && |s.phases| == |calls|
    && forall i :: 0 <= i < |calls| ==>
         s.phases[i] == SerialSessions.Run(SerialSessions.After(calls[..i]), calls[i]).1
  }

  lemma OneMoreTaken(front: seq<Call>, call: Call, s: State, t: State)
    requires TakenInTurn(s, front)
    requires var end := SerialSessions.Run(s.rows, call);
             t.rows == end.0 && t.calls == front + [call] && t.phases == s.phases + [end.1]
    ensures TakenInTurn(t, front + [call])
  {
    hide SerialSessions.Run;
    var calls := front + [call];
    assert calls[..|front|] == front;
    assert forall i :: 0 <= i < |front| ==> front[..i] == calls[..i];
  }

  lemma OneMoreSession(actions: seq<Action>, call: Call) returns (r: seq<Action>)
    requires Allowed(actions) && call.Valid() && |Reach(actions).calls| == |Reach(actions).phases|
    ensures Allowed(r)
    ensures var s, t := Reach(actions), Reach(r);
            var end := SerialSessions.Run(s.rows, call);
            t.rows == end.0 && t.calls == s.calls + [call] && t.phases == s.phases + [end.1]
  {
    hide Reach, Finish, Call.Valid;
    Next(actions, Arrive(call));
    r := Uninterrupted(actions + [Arrive(call)], |Reach(actions).calls|, SerialSessions.Always);
  }

  lemma NothingTaken()
    ensures Allowed([]) && TakenInTurn(Reach([]), [])
  {
  }

  lemma TakeOneMore(actions: seq<Action>, front: seq<Call>, call: Call) returns (r: seq<Action>)
    requires Allowed(actions) && call.Valid() && TakenInTurn(Reach(actions), front)
    ensures Allowed(r) && TakenInTurn(Reach(r), front + [call])
  {
    hide Reach, Call.Valid, SerialSessions.After, SerialSessions.Run, Allowed;
    r := OneMoreSession(actions, call);
    OneMoreTaken(front, call, Reach(actions), Reach(r));
  }

  // So every serial run is one of the runs above.
  lemma {:induction false} SerialRunIsARun(calls: seq<Call>) returns (actions: seq<Action>)
    requires forall i :: 0 <= i < |calls| ==> calls[i].Valid()
    ensures Allowed(actions) && TakenInTurn(Reach(actions), calls)
  {
    hide Reach, Call.Valid, Allowed, TakenInTurn;
    if calls == [] {
      NothingTaken();
      actions := [];
    } else {
      var n := |calls| - 1;
      var front, call := calls[..n], calls[n];
      actions := SerialRunIsARun(front);
      actions := TakeOneMore(actions, front, call);
      assert calls == front + [call];
    }
  }
}
