/** The proof of work of BitMRC/pow.cpp and the object check of BitMRC/BitMRC.cpp. */
module ProofOfWork {
  import opened Positional
  import opened Words
  import opened Objects
  import opened Hashes

  const EXTRA_BYTES: uint64 := 1000
  const NONCE_TRIALS: uint64 := 1000
  const MAX_PAYLOAD := 0x40000
  const MAX_TTL := 28 * 24 * 60 * 60 + 10800
  const PAST := 3600

  // ----- the target -----

  /** Only the low 32 bits, read as signed, are looked at for the clamp. */
  function Clamped(ttl: uint64): uint64 {
    if -PAST < Int32(ttl) < 300 then 300 else ttl
  }

  /** The divisor, every operation wrapping at 64 bits. */
  function Divisor(length: uint64, ttl: uint64, extra: uint64, trials: uint64): uint64 {
    var scaled := U64(U64(length + extra) * Clamped(ttl)) / 0x10000;
    U64(U64(U64(scaled + extra) + length) * trials)
  }

  /** `getTarget`, which divides 2^63 twice because 2^64 does not fit; dividing by zero is undefined. */
  function GetTarget(length: uint64, ttl: uint64, extra: uint64, trials: uint64): int64
    requires Divisor(length, ttl, extra, trials) != 0
  {
    Int64(Halved(Divisor(length, ttl, extra, trials)))
  }

  function Halved(divisor: uint64): uint64
    requires divisor != 0
  {
    var target := U64(TWO63 / divisor * 2);
    if U64(TWO63 % divisor * 2) >= divisor then U64(target + 1) else target
  }

  /** The two half divisions give the quotient of 2^64 exactly for divisors from 2 to 2^63. */
  lemma HalvedIsQuotient(divisor: uint64)
    requires divisor != 0
    ensures Halved(divisor) == TWO64 / divisor <==> 2 <= divisor <= TWO63
  {
    if divisor > TWO63 {
      LargeDivisor(divisor);
    } else {
      QuotientOfDouble(TWO63, divisor, TWO63 / divisor, TWO63 % divisor);
      HalvedOf(divisor, TWO63 / divisor, TWO63 % divisor);
    }
  }

  lemma HalvedOf(d: uint64, q: nat, r: nat)
    requires 0 < d <= TWO63 && q == TWO63 / d && r == TWO63 % d && r < d
    requires d >= 2 ==> 2 * q <= TWO63
    requires d == 1 ==> q == TWO63 && r == 0
    ensures d >= 2 ==> Halved(d) == if 2 * r >= d then 2 * q + 1 else 2 * q
    ensures d == 1 ==> Halved(d) == 0
  {
    assert U64(TWO64) == 0;
    hide U64;
    Small(r * 2);
    Small(q * 2);
    Small(q * 2 + 1);
  }

  lemma LargeDivisor(d: uint64)
    requires d > TWO63
    ensures TWO63 / d == 0 && TWO63 % d == TWO63 && TWO64 / d == 1
  {
    DivMod(d, 0, TWO63);
    DivMod(d, 1, TWO64 - d);
  }

  lemma TwiceProduct(q: nat, d: nat)
    ensures (2 * q) * d == 2 * (q * d) && (2 * q + 1) * d == 2 * (q * d) + d
  {
  }

  lemma QuotientOfDouble(n: nat, d: nat, q: nat, r: nat)
    requires d > 0 && n == q * d + r && r < d
    ensures 2 * n / d == if 2 * r >= d then 2 * q + 1 else 2 * q
    ensures d >= 2 ==> 2 * q <= n
    ensures d == 1 ==> q == n && r == 0
  {
    TwiceProduct(q, d);
    if 2 * r >= d {
      DivMod(d, 2 * q + 1, 2 * r - d);
    } else {
      DivMod(d, 2 * q, 2 * r);
    }
    if d >= 2 {
      MulMonotone(q, q, 2, d);
    }
  }

  // ----- the target of an object inside its time window -----

  /** The divisor for the default parameters, without any wrapping. */
  function PlainDivisor(length: nat, seconds: int): (d: nat)
    requires seconds > -PAST
    ensures d > 0
  {
    ((length + EXTRA_BYTES) * (if seconds < 300 then 300 else seconds) / 0x10000 + EXTRA_BYTES + length) * NONCE_TRIALS
  }

  ghost predicate InWindow(length: nat, seconds: int) {
    length <= MAX_PAYLOAD && -PAST < seconds <= MAX_TTL
  }

  lemma ProductBounds(length: nat, ttl: nat)
    requires length <= MAX_PAYLOAD && 300 <= ttl <= MAX_TTL
    ensures 300000 <= (length + EXTRA_BYTES) * ttl < 0x100_0000_0000
  {
    MulMonotone(1000, length + 1000, 300, ttl);
    MulMonotone(length + 1000, MAX_PAYLOAD + 1000, ttl, MAX_TTL);
  }

  /** With the product in range, none of the other operations wraps. */
  lemma NothingWraps(length: nat, product: nat)
    requires length <= MAX_PAYLOAD && 300000 <= product < 0x100_0000_0000
    ensures U64(length + EXTRA_BYTES) == length + EXTRA_BYTES && U64(product) == product
    ensures U64(U64(U64(product / 0x10000 + EXTRA_BYTES) + length) * NONCE_TRIALS)
         == (product / 0x10000 + EXTRA_BYTES + length) * NONCE_TRIALS
    ensures 1000000 <= (product / 0x10000 + EXTRA_BYTES + length) * NONCE_TRIALS < TWO63
  {
  }

  /** Nothing overflows, and the target is the rounded-down quotient. */
  lemma TargetInWindow(length: nat, seconds: int)
    requires InWindow(length, seconds)
    ensures Divisor(length, U64(seconds), EXTRA_BYTES, NONCE_TRIALS) == PlainDivisor(length, seconds) > 1
    ensures PlainDivisor(length, seconds)
         == ((length + 1000) * (if seconds < 300 then 300 else seconds) / 65536 + 1000 + length) * 1000
    ensures GetTarget(length, U64(seconds), EXTRA_BYTES, NONCE_TRIALS) == TWO64 / PlainDivisor(length, seconds)
    ensures 0 < TWO64 / PlainDivisor(length, seconds) < TWO63
  {
    DivisorInWindow(length, seconds);
    var d := PlainDivisor(length, seconds);
    hide PlainDivisor, Divisor, Halved, U64, Int64;
    HalvedIsQuotient(d);
    QuotientBounds(d);
    Small(Halved(d));
  }

  lemma DivisorInWindow(length: nat, seconds: int)
    requires InWindow(length, seconds)
    ensures Divisor(length, U64(seconds), EXTRA_BYTES, NONCE_TRIALS) == PlainDivisor(length, seconds)
    ensures 1000000 <= PlainDivisor(length, seconds) < TWO63
  {
    var ttl := if seconds < 300 then 300 else seconds;
    SmallTime(seconds);
    ProductBounds(length, ttl);
    hide U64, Int32, Clamped;
    NothingWraps(length, (length + EXTRA_BYTES) * ttl);
  }

  lemma SmallTime(seconds: int)
    requires -PAST < seconds <= MAX_TTL
    ensures Clamped(U64(seconds)) == if seconds < 300 then 300 else seconds
  {
    if seconds < 0 {
      DivMod(TWO64, -1, seconds + TWO64);
      DivMod(TWO32, TWO32 - 1, seconds + TWO32);
    } else {
      DivMod(TWO64, 0, seconds);
      DivMod(TWO32, 0, seconds);
    }
  }

  /** The target of an object of the given length with the given time left. */
  function TargetOf(length: nat, seconds: int): (target: nat)
    requires InWindow(length, seconds)
    ensures target == TWO64 / PlainDivisor(length, seconds) < TWO63
  {
    TargetInWindow(length, seconds);
    GetTarget(length, U64(seconds), EXTRA_BYTES, NONCE_TRIALS)
  }

  lemma QuotientBounds(d: nat)
    requires 4 <= d < TWO63
    ensures 0 < TWO64 / d < TWO63
  {
    var q := TWO64 / d;
    assert TWO64 == q * d + TWO64 % d;
    if q >= TWO63 {
      MulMonotone(TWO63, q, 4, d);
    }
  }

  /** More time to live or a longer object means a smaller target. */
  lemma TargetAntitone(length: nat, seconds: int, length': nat, seconds': int)
    requires length <= length' && seconds <= seconds' && InWindow(length, seconds) && InWindow(length', seconds')
    ensures TargetOf(length', seconds') <= TargetOf(length, seconds)
  {
    hide GetTarget, PlainDivisor;
    TargetInWindow(length, seconds);
    TargetInWindow(length', seconds');
    DivisorMonotone(length, seconds, length', seconds');
    QuotientAntitone(TWO64, PlainDivisor(length, seconds), PlainDivisor(length', seconds'));
  }

  lemma DivisorMonotone(length: nat, seconds: int, length': nat, seconds': int)
    requires length <= length' && -PAST < seconds <= seconds'
    ensures PlainDivisor(length, seconds) <= PlainDivisor(length', seconds')
  {
    var t, t' := if seconds < 300 then 300 else seconds, if seconds' < 300 then 300 else seconds';
    MulMonotone(length + 1000, length' + 1000, t, t');
    SixteenBitsLess((length + 1000) * t, (length' + 1000) * t');
  }

  lemma SixteenBitsLess(p: nat, q: nat)
    requires p <= q
    ensures p / 0x10000 <= q / 0x10000
  {
  }

  lemma QuotientAntitone(n: nat, d: nat, d': nat)
    requires 0 < d <= d'
    ensures n / d' <= n / d
  {
    var q, q' := n / d, n / d';
    assert n == q * d + n % d && n == q' * d' + n % d';
    if q' > q {
      MulMonotone(q + 1, q', d, d');
    }
  }

  // ----- one second too late -----

  lemma DeadlineIsNotClamped()
    ensures Clamped(U64(-PAST)) == TWO64 - PAST
  {
    DivMod(TWO64, -1, TWO64 - PAST);
    DivMod(TWO32, TWO32 - 1, TWO32 - PAST);
  }

  lemma DeadlineProduct(length: nat)
    requires length <= MAX_PAYLOAD
    ensures U64((length + EXTRA_BYTES) * (TWO64 - PAST)) == TWO64 - PAST * (length + EXTRA_BYTES)
  {
    var n := length + EXTRA_BYTES;
    assert n * (TWO64 - PAST) == (n - 1) * TWO64 + (TWO64 - PAST * n);
    DivMod(TWO64, n - 1, TWO64 - PAST * n);
  }

  lemma SixtyFiveTimes(n: nat, scaled: nat)
    requires 1000 <= n <= MAX_PAYLOAD + 1000 && scaled == (TWO64 - PAST * n) / 0x10000
    ensures 65 * ((scaled + n) * 1000) <= TWO64 < 66 * ((scaled + n) * 1000)
  {
  }

  lemma SumsFit(length: nat, product: uint64)
    requires length <= MAX_PAYLOAD
    ensures U64(U64(U64(product / 0x10000 + EXTRA_BYTES) + length) * NONCE_TRIALS)
         == (product / 0x10000 + EXTRA_BYTES + length) * NONCE_TRIALS
  {
    hide U64;
    var scaled := product / 0x10000;
    Small(scaled + EXTRA_BYTES);
    Small(scaled + EXTRA_BYTES + length);
    Small((scaled + EXTRA_BYTES + length) * NONCE_TRIALS);
  }

  lemma DivisorAtDeadline(length: nat) returns (d: nat)
    requires length <= MAX_PAYLOAD
    ensures Divisor(length, U64(-PAST), EXTRA_BYTES, NONCE_TRIALS) == d
    ensures 65 * d <= TWO64 < 66 * d
  {
    hide U64, Clamped;
    var n := length + EXTRA_BYTES;
    var product: uint64 := TWO64 - PAST * n;
    DeadlineIsNotClamped();
    DeadlineProduct(length);
    Small(n);
    SumsFit(length, product);
    d := (product / 0x10000 + EXTRA_BYTES + length) * NONCE_TRIALS;
    SixtyFiveTimes(n, product / 0x10000);
  }

  /** Exactly 3600 seconds past its time the clamp no longer applies to an object, the time left wraps
      to almost 2^64, and the target falls to 65. */
  lemma TargetAtDeadline(length: nat)
    requires length <= MAX_PAYLOAD
    ensures Divisor(length, U64(-PAST), EXTRA_BYTES, NONCE_TRIALS) > 1
    ensures GetTarget(length, U64(-PAST), EXTRA_BYTES, NONCE_TRIALS) == 65
  {
    hide Divisor, Halved, U64, Int64;
    var d := DivisorAtDeadline(length);
    HalvedIsQuotient(d);
    DivMod(d, 65, TWO64 - 65 * d);
    Small(65);
  }

  // ----- the check -----

  /** `doPow`: the first eight bytes of the double hash over the nonce and the hash of the rest. */
  function WorkValue(sha512: Hash512, data: seq<byte>): (v: nat)
    requires |data| >= 8
  {
    Value(256, sha512(sha512(data[..8] + sha512(data[8..])))[..8])
  }

  /** `checkPow`; its last two parameters are not used by the source. */
  predicate CheckPow(sha512: Hash512, data: seq<byte>, seconds: int)
    requires |data| >= 8 && Divisor(U64(|data| - 8), U64(seconds), EXTRA_BYTES, NONCE_TRIALS) != 0
  {
    WorkValue(sha512, data) <= U64(GetTarget(U64(|data| - 8), U64(seconds), EXTRA_BYTES, NONCE_TRIALS))
  }

  /** `Throws` is the out-of-range exception of `substr` on a payload without a whole nonce. */
  datatype Verdict = Accepted | Rejected | Throws

  function Validate(sha512: Hash512, payload: seq<byte>, time: int64, now: int): Verdict {
    if |payload| > MAX_PAYLOAD || time - now > MAX_TTL || time - now < -PAST then Rejected
    else if |payload| < 8 then Throws
    else
      Checkable(|payload| - 8, time - now);
      if CheckPow(sha512, payload, time - now) then Accepted else Rejected
  }

  lemma Checkable(length: nat, seconds: int)
    requires length <= MAX_PAYLOAD && -PAST <= seconds <= MAX_TTL
    ensures U64(length) == length && Divisor(length, U64(seconds), EXTRA_BYTES, NONCE_TRIALS) != 0
  {
    hide Divisor, GetTarget, PlainDivisor;
    Small(length);
    if seconds == -PAST {
      TargetAtDeadline(length);
    } else {
      DivisorInWindow(length, seconds);
    }
  }

  /** The check in terms of the exact quotient. */
  lemma ValidateIff(sha512: Hash512, payload: seq<byte>, time: int64, now: int)
    ensures Validate(sha512, payload, time, now) == Accepted
       <==> && 8 <= |payload| <= MAX_PAYLOAD && -PAST <= time - now <= MAX_TTL
            && WorkValue(sha512, payload) <= if time - now == -PAST then 65 else TargetOf(|payload| - 8, time - now)
  {
    hide WorkValue, GetTarget, Divisor, U64, PlainDivisor;
    if 8 <= |payload| <= MAX_PAYLOAD && -PAST <= time - now <= MAX_TTL {
      var length, seconds := |payload| - 8, time - now;
      Checkable(length, seconds);
      if seconds == -PAST {
        TargetAtDeadline(length);
        Small(65);
      } else {
        TargetInWindow(length, seconds);
        Small(TargetOf(length, seconds));
      }
    }
  }

  /** The check in terms of the hash function alone, for every payload, time and clock. */
  lemma ValidateMeans(sha512: Hash512, payload: seq<byte>, time: int64, now: int)
    ensures Validate(sha512, payload, time, now) == Throws <==> |payload| < 8 && -3600 <= time - now <= 2430000
    ensures Validate(sha512, payload, time, now) == Accepted <==>
              && 8 <= |payload| <= 0x40000 && -3600 <= time - now <= 2430000
              && Value(256, sha512(sha512(payload[..8] + sha512(payload[8..])))[..8])
                 <= if time - now == -3600 then 65
                    else 0x1_0000_0000_0000_0000 / PlainDivisor(|payload| - 8, time - now)
  {
    hide Validate, GetTarget, Value, PlainDivisor, WorkValue;
    ValidateIff(sha512, payload, time, now);
    ThrowsIff(sha512, payload, time, now);
    if |payload| >= 8 {
      WorkMeans(sha512, payload);
    }
  }

  lemma WorkMeans(sha512: Hash512, payload: seq<byte>)
    requires |payload| >= 8
    ensures WorkValue(sha512, payload) == Value(256, sha512(sha512(payload[..8] + sha512(payload[8..])))[..8])
  {
    hide Value;
  }

  /** An object accepted once stays accepted while less than an hour past its time; at exactly 3600
      seconds past it only a work value of at most 65 still passes, and later nothing does. */
  lemma ValidityPersists(sha512: Hash512, payload: seq<byte>, time: int64, now: int, later: int)
    requires Validate(sha512, payload, time, now) == Accepted && now <= later
    ensures Validate(sha512, payload, time, later) == Accepted
       <==> time - later > -PAST || (time - later == -PAST && WorkValue(sha512, payload) <= 65)
  {
    hide WorkValue, Validate, TargetOf;
    ValidateIff(sha512, payload, time, now);
    ValidateIff(sha512, payload, time, later);
    if time - later > -PAST {
      TargetAntitone(|payload| - 8, time - later, |payload| - 8, time - now);
    }
  }

  /** The last second is a real exception: an object can pass one second before and fail then. */
  lemma FailsAtDeadline() returns (sha512: Hash512, payload: seq<byte>)
    ensures DecodeData(payload).Got? && DecodeData(payload).value.time == 0
    ensures Validate(sha512, payload, 0, PAST - 1) == Accepted
    ensures Validate(sha512, payload, 0, PAST) == Rejected
  {
    var o := Object(0, 0, 0, 0, 0, []);
    payload := EncodePayload(o);
    ObjectReadsBack(o);
    SmallestLength(o);
    hide EncodePayload, DecodeData, WorkValue, Validate;
    var digest: Digest64 := Zeros(7) + [66] + Zeros(56);
    sha512 := (m: seq<byte>) => digest;
    ConstantWork(sha512, digest, payload);
    PassesOnlyBefore(sha512, payload);
  }

  lemma PassesOnlyBefore(sha512: Hash512, payload: seq<byte>)
    requires |payload| == 22 && WorkValue(sha512, payload) == 66
    ensures Validate(sha512, payload, 0, PAST - 1) == Accepted
    ensures Validate(sha512, payload, 0, PAST) == Rejected
  {
    hide WorkValue, Validate, TargetOf;
    ValidateIff(sha512, payload, 0, PAST - 1);
    ValidateIff(sha512, payload, 0, PAST);
    ThrowsIff(sha512, payload, 0, PAST);
    LargeEnough();
  }

  lemma ThrowsIff(sha512: Hash512, payload: seq<byte>, time: int64, now: int)
    ensures Validate(sha512, payload, time, now) == Throws <==> |payload| < 8 && -PAST <= time - now <= MAX_TTL
  {
    hide CheckPow;
  }

  lemma SmallestLength(o: Object)
    requires o.version == o.stream == 0 && o.body == []
    ensures |EncodePayload(o)| == 22
  {
  }

  lemma ConstantWork(sha512: Hash512, digest: Digest64, payload: seq<byte>)
    requires |payload| >= 8 && digest[..8] == Zeros(7) + [66] && forall m :: sha512(m) == digest
    ensures WorkValue(sha512, payload) == 66
  {
    ValueLeadingZeros(256, Zeros(7), [66]);
    ValueSingle(256, 66);
  }

  lemma LargeEnough()
    ensures TargetOf(14, 1 - PAST) > 66
  {
    hide GetTarget, Divisor;
    assert PlainDivisor(14, 1 - PAST) == 1018000;
    assert TWO64 / 1018000 > 66;
  }

  // ----- the search -----

  /** The nonce `n`, put in front of the data, meets the target. */
  predicate Meets(sha512: Hash512, data: seq<byte>, target: nat, n: nat)
    requires |data| >= 8
  {
    WorkValue(sha512, BigEndian(8, n) + data[8..]) <= target
  }

  /** The first nonce that meets the target in the order 1, 2, ..., 2^64 - 1, 0. */
  ghost predicate IsFirst(sha512: Hash512, data: seq<byte>, target: nat, nonce: uint64)
    requires |data| >= 8
  {
    && Meets(sha512, data, target, nonce)
    && forall m :: 1 <= m < (if nonce == 0 then TWO64 else nonce) ==> !Meets(sha512, data, target, m)
  }

  /** In terms of the hash function alone: the nonce, in front of the hash of what is behind it, hashes
      twice to a number that meets the target, and no nonce tried before it does. */
  lemma FirstMeans(sha512: Hash512, data: seq<byte>, target: nat, nonce: uint64)
    requires |data| >= 8 && IsFirst(sha512, data, target, nonce)
    ensures Value(256, sha512(sha512(BigEndian(8, nonce) + sha512(data[8..])))[..8]) <= target
    ensures forall m :: 1 <= m < (if nonce == 0 then TWO64 else nonce) ==>
              Value(256, sha512(sha512(BigEndian(8, m) + sha512(data[8..])))[..8]) > target
  {
    hide Meets, Value, BigEndian;
    MeetsMeans(sha512, data, target, nonce);
    forall m | 1 <= m < (if nonce == 0 then TWO64 else nonce)
      ensures Value(256, sha512(sha512(BigEndian(8, m) + sha512(data[8..])))[..8]) > target
    {
      MeetsMeans(sha512, data, target, m);
    }
  }

  lemma MeetsMeans(sha512: Hash512, data: seq<byte>, target: nat, n: nat)
    requires |data| >= 8
    ensures Meets(sha512, data, target, n) <==>
              Value(256, sha512(sha512(BigEndian(8, n) + sha512(data[8..])))[..8]) <= target
  {
    hide WorkValue, Value, BigEndian;
    NonceInFront(sha512, n, data[8..]);
  }

  lemma TargetBelowMax(divisor: uint64)
    requires divisor != 0
    ensures U64(Int64(Halved(divisor))) == Halved(divisor) <= TWO63
  {
    if divisor > TWO63 {
      LargeDivisor(divisor);
    } else if divisor == 1 {
      assert Halved(1) == 0;
    } else {
      hide Halved, U64, Int64;
      HalvedIsQuotient(divisor);
      QuotientAntitone(TWO64, 2, divisor);
    }
    hide Halved;
    Int64Back(Halved(divisor));
  }

  lemma Int64Back(x: uint64)
    ensures U64(Int64(x)) == x
  {
  }

  /** Some 64-bit nonce meets the target. Without one the source searches forever. */
  ghost predicate Reachable(sha512: Hash512, data: seq<byte>, target: nat)
    requires |data| >= 8
  {
    exists n: uint64 :: Meets(sha512, data, target, n)
  }

  function SearchTarget(length: nat, seconds: int): (target: nat)
    requires Divisor(U64(length), U64(seconds), EXTRA_BYTES, NONCE_TRIALS) != 0
    ensures target <= TWO63
  {
    TargetBelowMax(Divisor(U64(length), U64(seconds), EXTRA_BYTES, NONCE_TRIALS));
    U64(GetTarget(U64(length), U64(seconds), EXTRA_BYTES, NONCE_TRIALS))
  }

  lemma SearchTargetInWindow(length: nat, seconds: int)
    requires InWindow(length, seconds)
    ensures U64(length) == length && Divisor(length, U64(seconds), EXTRA_BYTES, NONCE_TRIALS) != 0
    ensures SearchTarget(length, seconds) == TargetOf(length, seconds)
  {
    hide Divisor, GetTarget, PlainDivisor;
    Small(length);
    TargetInWindow(length, seconds);
    Small(TargetOf(length, seconds));
  }

  /** `searchPow` finds the first nonce in its order. */
  method SearchPow(sha512: Hash512, data: seq<byte>, time: int64, now: int) returns (nonce: uint64)
    requires |data| >= 8 && Divisor(U64(|data| - 8), U64(time - now), EXTRA_BYTES, NONCE_TRIALS) != 0
    requires Reachable(sha512, data, SearchTarget(|data| - 8, time - now))
    ensures IsFirst(sha512, data, SearchTarget(|data| - 8, time - now), nonce)
    ensures Value(256, sha512(sha512(BigEndian(8, nonce) + sha512(data[8..])))[..8])
         <= SearchTarget(|data| - 8, time - now)
    ensures forall m :: 1 <= m < (if nonce == 0 then TWO64 else nonce) ==>
              Value(256, sha512(sha512(BigEndian(8, m) + sha512(data[8..])))[..8])
              > SearchTarget(|data| - 8, time - now)
  {
    hide Meets, SearchTarget, Divisor, BigEndian, Value;
    var payload := data[8..];
    var initialHash := sha512(payload);
    var target := SearchTarget(|payload|, time - now);
    var tmpnonce := new byte[72](_ => 0);
    var i := 0;
    while i < 64
      invariant 0 <= i <= 64 && tmpnonce[8..8 + i] == initialHash[..i]
    {
      tmpnonce[8 + i] := initialHash[i];
      i := i + 1;
    }
    assert tmpnonce[8..] == initialHash[..64] == initialHash;
    hide IsFirst, Reachable;
    nonce := SearchNonce(sha512, data, tmpnonce, target);
    FirstMeans(sha512, data, target, nonce);
  }

  /** The search loop, over a buffer that ends in the hash of the payload. */
  method SearchNonce(sha512: Hash512, data: seq<byte>, tmpnonce: array<byte>, target: nat) returns (nonce: uint64)
    requires |data| >= 8 && tmpnonce.Length == 72 && tmpnonce[8..] == sha512(data[8..])
    requires target <= TWO63 && Reachable(sha512, data, target)
    modifies tmpnonce
    ensures IsFirst(sha512, data, target, nonce)
  {
    hide Meets, Reachable, IsFirst, NoneBefore;
    ghost var hash := sha512(data[8..]);
    var powValue := TWO64 - 1;
    nonce := 0;
    ghost var tried: nat := 0;
    NoneBeforeOne(sha512, data, target);
    while powValue > target
      invariant tried <= TWO64 && nonce == (if tried == TWO64 then 0 else tried)
      invariant tmpnonce[8..] == hash
      invariant if tried == 0 then powValue > target else powValue <= target <==> Meets(sha512, data, target, nonce)
      invariant NoneBefore(sha512, data, target, tried)
      decreases TWO64 - tried
    {
      OneMoreTried(sha512, data, target, tried, nonce);
      nonce := if nonce == TWO64 - 1 then 0 else nonce + 1;
      tried := tried + 1;
      powValue := TryNonce(sha512, data, target, tmpnonce, nonce);
    }
    FirstFound(sha512, data, target, tried, nonce);
  }

  ghost predicate NoneBefore(sha512: Hash512, data: seq<byte>, target: nat, tried: nat)
    requires |data| >= 8
  {
    forall m :: 1 <= m < tried ==> !Meets(sha512, data, target, m)
  }

  lemma NoneBeforeOne(sha512: Hash512, data: seq<byte>, target: nat)
    requires |data| >= 8
    ensures NoneBefore(sha512, data, target, 0)
  {
  }

  /** A nonce that fails joins those tried; when all have failed there was none to find. */
  lemma OneMoreTried(sha512: Hash512, data: seq<byte>, target: nat, tried: nat, nonce: uint64)
    requires |data| >= 8 && Reachable(sha512, data, target) && NoneBefore(sha512, data, target, tried)
    requires tried <= TWO64 && nonce == (if tried == TWO64 then 0 else tried)
    requires tried > 0 ==> !Meets(sha512, data, target, nonce)
    ensures tried < TWO64 && NoneBefore(sha512, data, target, tried + 1)
  {
    hide Meets;
    if tried == TWO64 {
      Exhausted(sha512, data, target);
    }
  }

  lemma FirstFound(sha512: Hash512, data: seq<byte>, target: nat, tried: nat, nonce: uint64)
    requires |data| >= 8 && NoneBefore(sha512, data, target, tried) && Meets(sha512, data, target, nonce)
    requires 0 < tried <= TWO64 && nonce == (if tried == TWO64 then 0 else tried)
    ensures IsFirst(sha512, data, target, nonce)
  {
    hide Meets;
  }

  lemma Exhausted(sha512: Hash512, data: seq<byte>, target: nat)
    requires |data| >= 8
    requires forall m :: 1 <= m < TWO64 ==> !Meets(sha512, data, target, m)
    requires !Meets(sha512, data, target, 0)
    ensures !Reachable(sha512, data, target)
  {
  }

  /** One turn of the loop: `powValue` becomes the work value for the nonce. */
  method TryNonce(sha512: Hash512, data: seq<byte>, ghost target: nat, tmpnonce: array<byte>, nonce: uint64)
    returns (powValue: nat)
    requires |data| >= 8 && tmpnonce.Length == 72 && tmpnonce[8..] == sha512(data[8..])
    modifies tmpnonce
    ensures tmpnonce[8..] == sha512(data[8..])
    ensures powValue <= target <==> Meets(sha512, data, target, nonce)
  {
    hide WorkValue, Value, BigEndian;
    WriteNonce(tmpnonce, nonce);
    assert tmpnonce[..] == BigEndian(8, nonce) + sha512(data[8..]);
    powValue := Value(256, sha512(sha512(tmpnonce[..]))[..8]);
    NonceInFront(sha512, nonce, data[8..]);
  }

  lemma NonceInFront(sha512: Hash512, nonce: nat, payload: seq<byte>)
    ensures WorkValue(sha512, BigEndian(8, nonce) + payload)
         == Value(256, sha512(sha512(BigEndian(8, nonce) + sha512(payload)))[..8])
  {
    hide BigEndian, Value;
    var s := BigEndian(8, nonce) + payload;
    assert s[..8] == BigEndian(8, nonce) && s[8..] == payload;
  }

  /** The eight shifted bytes of the nonce. */
  method WriteNonce(tmpnonce: array<byte>, nonce: uint64)
    requires tmpnonce.Length >= 8
    modifies tmpnonce
    ensures tmpnonce[..8] == BigEndian(8, nonce) && tmpnonce[8..] == old(tmpnonce[8..])
  {
    hide BigEndian;
    BigEndianEight(nonce);
    tmpnonce[7] := nonce % 256;
    tmpnonce[6] := nonce / 0x100 % 256;
    tmpnonce[5] := nonce / 0x10000 % 256;
    tmpnonce[4] := nonce / 0x1000000 % 256;
    tmpnonce[3] := nonce / 0x1_0000_0000 % 256;
    tmpnonce[2] := nonce / 0x100_0000_0000 % 256;
    tmpnonce[1] := nonce / 0x1_0000_0000_0000 % 256;
    tmpnonce[0] := nonce / 0x100_0000_0000_0000 % 256;
  }

  /** Filling in the nonce changes nothing behind it. */
  lemma OnlyNonceChanges(o: Object, nonce: uint64)
    ensures EncodePayload(o.(nonce := nonce)) == BigEndian(8, nonce) + EncodePayload(o.(nonce := 0))[8..]
  {
    assert EncodeHeader(o.(nonce := nonce)) == EncodeHeader(o.(nonce := 0));
    hide EncodeHeader, BigEndian;
    assert EncodePayload(o.(nonce := 0))[8..] == EncodeHeader(o.(nonce := 0)) + o.body;
  }

  lemma MinedIsAccepted(sha512: Hash512, data: seq<byte>, time: int64, now: int, nonce: uint64, later: int)
    requires 8 <= |data| <= MAX_PAYLOAD && InWindow(|data| - 8, time - now)
    requires Meets(sha512, data, TargetOf(|data| - 8, time - now), nonce)
    requires now <= later && time - later > -PAST
    ensures Validate(sha512, BigEndian(8, nonce) + data[8..], time, later) == Accepted
  {
    hide WorkValue, TargetOf, BigEndian, Validate, PlainDivisor;
    ValidateIff(sha512, BigEndian(8, nonce) + data[8..], time, later);
    TargetAntitone(|data| - 8, time - later, |data| - 8, time - now);
  }

  /** What the search finds for an object is accepted by the separate check on the re-encoded object,
      at the time of the search and later in the window. */
  lemma SearchMeetsCheck(sha512: Hash512, o: Object, data: seq<byte>, now: int, nonce: uint64, later: int)
    requires data == EncodePayload(o.(nonce := 0)) && |data| <= MAX_PAYLOAD && InWindow(|data| - 8, o.time - now)
    requires Meets(sha512, data, TargetOf(|data| - 8, o.time - now), nonce)
    requires now <= later && o.time - later > -PAST
    ensures Validate(sha512, EncodePayload(o.(nonce := nonce)), o.time, later) == Accepted
  {
    hide WorkValue, TargetOf, EncodePayload, BigEndian, Validate, PlainDivisor;
    OnlyNonceChanges(o, nonce);
    MinedIsAccepted(sha512, data, o.time, now, nonce, later);
  }
}
