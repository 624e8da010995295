/** One-time passwords: otp.c, and the text in which sms.c sends them. */
module Otp {
  import opened Bytes
  import opened OrderedMap

  type Int64 = i: int | -0x8000_0000_0000_0000 <= i < 0x8000_0000_0000_0000

  datatype OtpType = AlphaNum | Alpha | Num

  // Bounds of the otplen argument
  const OTPLEN_MIN: nat := 4
  const OTPLEN_MAX: nat := 24

  // n consecutive characters
  function Range(first: byte, n: nat): (r: bytes)
    requires first as int + n <= 0x80
    ensures |r| == n && forall i :: 0 <= i < n ==> r[i] as int == first as int + i
  {
    seq(n, i requires 0 <= i < n => (first as int + i) as byte)
  }

  const DIGITS: bytes := Range(0x30, 10)
  const LOWER: bytes := Range(0x61, 26)
  const UPPER: bytes := Range(0x41, 26)

  // select_otp_type
  function Alphabet(t: OtpType): (r: bytes)
    ensures |r| == match t case AlphaNum => 62 case Alpha => 52 case Num => 10
    ensures forall c :: c in r ==> IsDigit(c) || LOWER_A <= Lower(c) <= 0x7A
  {
    match t
    case AlphaNum => DIGITS + LOWER + UPPER
    case Alpha => LOWER + UPPER
    case Num => DIGITS
  }

  // The i-th character: digits, then small letters, then capitals, each in order
  lemma AlphabetAt(t: OtpType, i: nat)
    requires i < |Alphabet(t)|
    ensures var n := if t.Alpha? then i + 10 else i;
            Alphabet(t)[i] as int == if n < 10 then 0x30 + n else if n < 36 then 0x61 + n - 10 else 0x41 + n - 36
  {
  }

  // Its characters are the digits, the letters or both, and none occurs twice.
  lemma AlphabetIs(t: OtpType, c: byte)
    ensures c in Alphabet(t) <==>
              || (!t.Alpha? && 0x30 <= c <= 0x39)
              || (!t.Num? && (0x61 <= c <= 0x7A || 0x41 <= c <= 0x5A))
    ensures forall i, j :: 0 <= i < j < |Alphabet(t)| ==> Alphabet(t)[i] != Alphabet(t)[j]
  {
    forall i: nat | i < |Alphabet(t)|
      ensures var n := if t.Alpha? then i + 10 else i;
              Alphabet(t)[i] as int == if n < 10 then 0x30 + n else if n < 36 then 0x61 + n - 10 else 0x41 + n - 36
    {
      AlphabetAt(t, i);
    }
    var x := c as int;
    var n := if x < 0x41 then x - 0x30 else if x < 0x61 then x - 0x41 + 36 else x - 0x61 + 10;
    var i := if t.Alpha? then n - 10 else n;
    hide Alphabet;
    if 0 <= i < |Alphabet(t)| {
      AlphabetAt(t, i);
    }
  }

  // The conversion of a long operand of % to unsigned long
  function Unsigned(n: Int64): (u: nat)
    ensures u < 0x1_0000_0000_0000_0000 && (u - n) % 0x1_0000_0000_0000_0000 == 0
  {
    if n < 0 then n + 0x1_0000_0000_0000_0000 else n
  }

  predicate IsOtp(otp: bytes, len: nat, t: OtpType) {
    |otp| == len && forall i :: 0 <= i < len ==> otp[i] in Alphabet(t)
  }

  // otp_gen. random(i) is what the i-th read of the random device gives, None if it fails.
  method OtpGen(len: nat, t: OtpType, opens: bool, random: nat -> Option<Int64>) returns (otp: Option<bytes>)
    ensures otp == None <==> !opens || exists i: nat :: i < len && random(i) == None
    ensures otp.Some? ==>
              && IsOtp(otp.value, len, t)
              && forall i: nat :: i < len ==>
                   otp.value[i] == Alphabet(t)[Unsigned(random(i).value) % |Alphabet(t)|]
  {
    hide Alphabet, Unsigned;
    var alphabet := Alphabet(t);
    if !opens {
      return None;
    }
    var s: bytes := [];
    for i := 0 to len
      invariant |s| == i
      invariant forall j: nat :: j < i ==> random(j).Some? && s[j] == alphabet[Unsigned(random(j).value) % |alphabet|]
    {
      var number := random(i);
      if number == None {
        return None;
      }
      s := s + [alphabet[Unsigned(number.value) % |alphabet|]];
    }
    otp := Some(s);
  }

  // A number that makes otp_gen choose c
  ghost function NumberFor(c: byte, t: OtpType): (n: Int64)
    requires c in Alphabet(t)
    ensures Alphabet(t)[Unsigned(n) % |Alphabet(t)|] == c
  {
    hide Alphabet, Unsigned;
    var i: nat :| i < |Alphabet(t)| && Alphabet(t)[i] == c;
    SmallNumber(i, |Alphabet(t)|);
    i
  }

  lemma SmallNumber(i: nat, n: nat)
    requires i < n && i < 0x8000
    ensures Unsigned(i) % n == i
  {
    assert Unsigned(i) == i;
  }

  // No string over the alphabet is left out: some numbers produce it.
  lemma EveryOtpIsGenerated(otp: bytes, t: OtpType) returns (random: nat -> Option<Int64>)
    requires IsOtp(otp, |otp|, t)
    ensures forall i: nat :: i < |otp| ==>
              random(i).Some? && otp[i] == Alphabet(t)[Unsigned(random(i).value) % |Alphabet(t)|]
  {
    hide Alphabet, Unsigned, NumberFor;
    random := (i: nat) => Some(if i < |otp| && otp[i] in Alphabet(t) then NumberFor(otp[i], t) else 0);
    forall i: nat | i < |otp| ensures otp[i] == Alphabet(t)[Unsigned(random(i).value) % |Alphabet(t)|] {
      assert otp[i] in Alphabet(t);
      assert random(i).value == NumberFor(otp[i], t);
    }
  }

  // strncmp(a, b, n) == 0
  predicate StrnEqual(a: bytes, b: bytes, n: nat) {
    if n == 0 then true
    else if a == [] || b == [] then a == b
    else a[0] == b[0] && StrnEqual(a[1..], b[1..], n - 1)
  }

  function Take(s: bytes, n: nat): (r: bytes)
    ensures r <= s && |r| == if n < |s| then n else |s|
  {
    if n < |s| then s[..n] else s
  }

  lemma {:induction false} StrnEqualIsTake(a: bytes, b: bytes, n: nat)
    ensures StrnEqual(a, b, n) <==> Take(a, n) == Take(b, n)
  {
    if n > 0 && a != [] && b != [] {
      StrnEqualIsTake(a[1..], b[1..], n - 1);
      TakeFirst(a, n);
      TakeFirst(b, n);
    }
  }

  lemma TakeFirst(s: bytes, n: nat)
    requires s != [] && n > 0
    ensures Take(s, n) == [s[0]] + Take(s[1..], n - 1)
  {
    if n < |s| {
      assert s[..n] == [s[0]] + s[1..][..n - 1];
    } else {
      assert s == [s[0]] + s[1..];
    }
  }

  // otp_cmp accepts exactly the inputs that begin with the OTP; what follows is ignored.
  lemma AcceptedInputs(otp: bytes, input: bytes)
    ensures StrnEqual(otp, input, |otp|) <==> otp <= input
  {
    StrnEqualIsTake(otp, input, |otp|);
  }

  // ---- the message ----

  const SMS_MAXSIZE: nat := 24
  const MARK: bytes := [STAR, STAR]

  // snprintf(sms, SMS_MAXSIZE, "** %s **", otp)
  function SmsText(otp: bytes): bytes {
    Take(MARK + [SPACE] + otp + [SPACE] + MARK, SMS_MAXSIZE - 1)
  }

  predicate OccursAt(s: bytes, t: bytes, i: nat) {
    i + |t| <= |s| && s[i..i + |t|] == t
  }

  // The message begins with two stars and a space; at most 23 characters of it are sent.
  lemma MessageIs(otp: bytes)
    ensures var whole := Ascii("** ") + otp + Ascii(" **");
            SmsText(otp) <= whole && |SmsText(otp)| == if |whole| < 24 then |whole| else 23
  {
    Characters();
    assert Ascii("** ") == MARK + [SPACE] && Ascii(" **") == [SPACE] + MARK;
    assert Ascii("** ") + otp + Ascii(" **") == MARK + [SPACE] + otp + [SPACE] + MARK;
  }

  // The OTP is in the message as a whole only up to 20 characters, although the otplen
  // argument allows 24.
  lemma LongOtpsAreCut(otp: bytes, t: OtpType)
    requires IsOtp(otp, |otp|, t)
    ensures (exists i: nat :: OccursAt(SmsText(otp), otp, i)) <==> |otp| <= 20
  {
    hide Alphabet, SmsText;
    if |otp| <= 20 {
      SentAsAWhole(otp);
    } else {
      forall i: nat ensures !OccursAt(SmsText(otp), otp, i) {
        NotSentAsAWhole(otp, t, i);
      }
    }
  }

  lemma MessageAt(otp: bytes, i: nat)
    requires i < |SmsText(otp)|
    ensures i < 3 ==> SmsText(otp)[i] == [STAR, STAR, SPACE][i]
    ensures 3 <= i < 3 + |otp| ==> SmsText(otp)[i] == otp[i - 3]
  {
  }

  lemma SentAsAWhole(otp: bytes)
    requires |otp| <= 20
    ensures OccursAt(SmsText(otp), otp, 3)
  {
    MessageIs(otp);
    hide SmsText;
    assert |SmsText(otp)| >= 3 + |otp|;
    forall i | 0 <= i < |otp| ensures SmsText(otp)[3 + i] == otp[i] {
      MessageAt(otp, 3 + i);
    }
    assert SmsText(otp)[3..3 + |otp|] == otp;
  }

  // It would have to start in the first three characters, which are in no alphabet.
  lemma NotSentAsAWhole(otp: bytes, t: OtpType, i: nat)
    requires IsOtp(otp, |otp|, t) && |otp| > 20
    ensures !OccursAt(SmsText(otp), otp, i)
  {
    MessageIs(otp);
    hide SmsText, Alphabet;
    var sms := SmsText(otp);
    assert otp[0] in Alphabet(t);
    if i < 3 {
      MessageAt(otp, i);
      assert i + |otp| <= |sms| ==> sms[i..i + |otp|][0] == sms[i] != otp[0];
    }
  }
}
