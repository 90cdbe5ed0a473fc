/** hotp.go: counter-based codes and resynchronisation (section 7.4 of RFC 4226). */
module Hotp {
  import opened Wrappers
  import opened Words
  import opened ConstantTime
  import opened Otp

  const MAX_LOOK_AHEAD: nat := 10000

  datatype Hotp = Hotp(mac: Mac, digits: nat, cleared: bool)

  predicate ValidHotp(h: Hotp) {
    6 <= h.digits <= 8
  }

  /** newHOTPWithRuntime, for a secret or provider that is present and a known algorithm. */
  function NewHotp(mac: Mac, digits: uint32): (r: Result<Hotp>)
    ensures r.Ok? ==> ValidHotp(r.value)
    ensures r.Ok? <==> 6 <= digits <= 8
  {
    if digits < 6 || digits > 8 then Err(ErrInvalidDigits) else Ok(Hotp(mac, digits, false))
  }

  method Verify(h: Hotp, code: seq<byte>, counter: uint64) returns (r: Result<bool>)
    requires ValidHotp(h) && |code| <= MAX_INT
    ensures r == if h.cleared then Err(ErrInvalidSecret) else Ok(code == Code(h.mac, h.digits, counter, []))
  {
    hide Code;
    if h.cleared {
      return Err(ErrInvalidSecret);
    }
    var expected := GenDigits(h.mac, h.digits, counter, []);
    var ok := ConstTimeEqBytes(code, expected);
    return Ok(ok);
  }

  /** Resynchronisation: the least counter of the window from `counter` to `counter + lookAhead`,
      cut off at the largest 64-bit counter, whose code is the input, or false with counter zero
      when there is none. Windows of more than ten thousand are refused. */
  method VerifyWithResync(h: Hotp, code: seq<byte>, counter: uint64, lookAhead: uint64)
    returns (r: Result<(uint64, bool)>)
    requires ValidHotp(h) && |code| <= MAX_INT
    ensures h.cleared <==> r == Err(ErrInvalidSecret)
    ensures !h.cleared && lookAhead > 10_000 <==> r == Err(ErrInvalidCounter)
    ensures !h.cleared && lookAhead <= 10_000 ==> r.Ok?
    ensures r.Ok? && r.value.1 ==>
              && counter <= r.value.0 <= counter + lookAhead && Code(h.mac, h.digits, r.value.0, []) == code
              && forall c: uint64 :: counter <= c < r.value.0 ==> Code(h.mac, h.digits, c, []) != code
    ensures r.Ok? && !r.value.1 ==>
              && r.value.0 == 0
              && forall c: uint64 :: counter <= c <= counter + lookAhead ==> Code(h.mac, h.digits, c, []) != code
  {
    hide Code;
    if h.cleared {
      return Err(ErrInvalidSecret);
    }
    if lookAhead > MAX_LOOK_AHEAD {
      return Err(ErrInvalidCounter);
    }
    var i := 0;
    while i <= lookAhead
      invariant 0 <= i <= lookAhead + 1 && counter + i <= TWO_64
      invariant forall c: uint64 :: counter <= c < counter + i ==> Code(h.mac, h.digits, c, []) != code
    {
      var testCounter := (counter + i) % TWO_64;
      if testCounter < counter {
        break;
      }
      var expected := GenDigits(h.mac, h.digits, testCounter, []);
      var equal := ConstTimeEqBytes(code, expected);
      if equal {
        return Ok((testCounter, true));
      }
      i := i + 1;
    }
    return Ok((0, false));
  }
}
