/**
 * pkg/types coerce.go: integer range bounds of a type code, the range test
 * between two integer kinds, and the coercion of one scalar to another
 * scalar's type (bool, integer and string cases).
 */
module Coerce {
  import opened Wrappers
  import opened GoText
  import opened Types

  /** pow2: `uint64(1) << n`; a shift by 64 or more gives 0 (a negative one panics). */
  function ShiftPow2(n: int): (r: nat)
    requires n >= 0
    ensures n < 64 ==> r == Pow2(n)
    ensures n >= 64 ==> r == 0
  {
    if n >= 64 then 0 else Pow2(n)
  }

  /** What pow2m1 computes: 1 up to n = 1, then 2^n - 1, saturating at 64 bits. */
  function Pow2m1Of(n: int): nat {
    if n <= 1 then 1
    else if n >= 64 then Two64 - 1
    else Pow2(n) - 1
  }

  /** pow2m1 is one less than pow2 from 1 bit to 63 bits. */
  lemma Pow2m1Pow2(n: int)
    requires 1 <= n < 64
    ensures Pow2m1Of(n) == ShiftPow2(n) - 1
  {
  }

  /**
   * pow2m1 as written: starting from 1, shift left and set the low bit
   * n - 1 times, in uint64 arithmetic.
   */
  method Pow2m1(n: int) returns (u: nat)
    ensures u == Pow2m1Of(n)
  {
    u := 1;
    var i := 0;
    while i < n - 1
      invariant i == 0 || 0 < i <= n - 1
      invariant u == Pow2m1Of(i + 1)
    {
      Pow2m1Step(i);
      u := (u * 2) % Two64 + 1;
      i := i + 1;
    }
  }

  /** One pass of pow2m1's loop takes 2^k - 1 to 2^(k+1) - 1, saturating at 64 bits. */
  lemma Pow2m1Step(i: nat)
    ensures (Pow2m1Of(i + 1) * 2) % Two64 + 1 == Pow2m1Of(i + 2)
  {
    var v := Pow2m1Of(i + 1) * 2;
    if i + 2 <= 64 {
      Pow2Table();
      Pow2Mono(i + 2, 64);
      assert Pow2(i + 2) == 2 * Pow2(i + 1);
      assert v < Two64;
      ModSmall(v, Two64);
    } else {
      ModOnce(v, Two64);
    }
  }

  lemma ModSmall(x: int, m: int)
    requires 0 <= x < m
    ensures x % m == x
  {
  }

  lemma ModOnce(x: int, m: int)
    requires m <= x < 2 * m
    ensures x % m == x - m
  {
  }

  /**
   * TypeId.MinAndMax: the smallest value as an int64 and the largest as a
   * uint64; a bool is (0, 1), a type of no number kind (0, 0). A signed
   * type code without a width would make pow2 panic.
   */
  function MinAndMax(tp: TypeId): (r: (int, nat))
    requires Tst(tp, IntT) && !Tst(tp, BoolT) ==> BitSize(tp) >= 1
    ensures Tst(tp, BoolT) ==> r == (0, 1)
    ensures !Tst(tp, BoolT) && !Tst(tp, IntT) && !Tst(tp, UintT) && !Tst(tp, FloatT) ==> r == (0, 0)
  {
    Pow2Table();
    if Tst(tp, BoolT) then (0, 1)
    else
      var n := BitSize(tp);
      if Tst(tp, IntT) then (Wrap(Int64, -(ShiftPow2(n - 1) as int)), Pow2m1Of(n - 1))
      else if Tst(tp, UintT) then (0, Pow2m1Of(n))
      else if Tst(tp, FloatT) then
        if n == 32 then (Wrap(Int64, -(ShiftPow2(24) as int)), ShiftPow2(24))
        else (Wrap(Int64, -(ShiftPow2(53) as int)), ShiftPow2(53))
      else (0, 0)
  }

  /** For every integer kind, MinAndMax is exactly that kind's range. */
  lemma MinAndMaxKind(k: IntKind)
    ensures MinAndMax(KindType(k)) == (MinOf(k), MaxOf(k))
  {
    var t := KindType(k);
    assert !Tst(t, BoolT) && !Tst(t, FloatT);
    if IsSigned(k) {
      SignedBounds(KindBits(k));
    } else {
      UnsignedBounds(KindBits(k));
    }
  }

  /** The signed bounds pow2 and pow2m1 give for a width. */
  lemma SignedBounds(n: nat)
    requires ValidBitSize(n) && n >= 8
    ensures Wrap(Int64, -(ShiftPow2(n - 1) as int)) == MinInt(n)
    ensures Pow2m1Of(n - 1) == MaxInt(n)
  {
    HalfPow2(n);
    KindLits(Int64);
  }

  /** The unsigned bound pow2m1 gives for a width. */
  lemma UnsignedBounds(n: nat)
    requires ValidBitSize(n) && n >= 8
    ensures Pow2m1Of(n) == MaxUint(n)
  {
    HalfPow2(n);
  }

  /**
   * The shortcut RangeTest takes: the two type codes are equal, or they
   * differ only in width and the test width is no larger.
   */
  predicate Fits(tk: IntKind, rk: IntKind) {
    var tt := KindType(tk);
    var tr := KindType(rk);
    tt == tr || (tt & !NumBits == tr & !NumBits && BitSize(tt) <= BitSize(tr))
  }

  /**
   * RangeTest(t, r) for a value `t` of kind `tk` and a reference of kind
   * `rk`: the shortcut, or else `uint64(t) <= rmax && int64(t) >= rmin`
   * with Go's wrapping conversions.
   */
  function RangeTest(tk: IntKind, t: int, rk: IntKind): bool
    requires InRange(tk, t)
  {
    if Fits(tk, rk) then true
    else
      var mm := MinAndMax(KindType(rk));
      Wrap(Uint64, t) <= mm.1 && Wrap(Int64, t) >= mm.0
  }

  /** The shortcut is taken exactly when the test kind's range lies within the reference kind's range and the signedness agrees. */
  lemma FitsMeaning(tk: IntKind, rk: IntKind)
    ensures Fits(tk, rk) <==> IsSigned(tk) == IsSigned(rk) && KindBits(tk) <= KindBits(rk)
    ensures Fits(tk, rk) ==> MinOf(rk) <= MinOf(tk) && MaxOf(tk) <= MaxOf(rk)
  {
    FitsBits(tk, rk);
    KindLits(tk);
    KindLits(rk);
  }

  lemma FitsBits(tk: IntKind, rk: IntKind)
    ensures Fits(tk, rk) <==> IsSigned(tk) == IsSigned(rk) && KindBits(tk) <= KindBits(rk)
  {
    var tt := KindType(tk);
    var tr := KindType(rk);
    assert tt & !NumBits == tr & !NumBits <==> IsSigned(tk) == IsSigned(rk);
  }

  lemma KindBounds(k: IntKind)
    ensures -(Two63 as int) <= MinOf(k) <= 0 && MaxOf(k) < Two64
    ensures IsSigned(k) ==> MaxOf(k) < Two63
    ensures !IsSigned(k) ==> MinOf(k) == 0 && MaxOf(k) >= 0
    ensures MaxOf(k) >= Two63 ==> !IsSigned(k) && KindBits(k) == 64
  {
    KindLits(k);
  }

  lemma WrapWide(t: int)
    requires -(Two63 as int) <= t < Two64
    ensures Wrap(Uint64, t) == (if t < 0 then t + Two64 else t)
    ensures Wrap(Int64, t) == (if t >= Two63 then t - Two64 else t)
  {
    KindLits(Uint64);
    KindLits(Int64);
    assert Wrap(Uint64, t) == WrapIn(t, 0, Two64);
    assert Wrap(Int64, t) == WrapIn(t, -(Two63 as int), Two64);
  }

  /**
   * Apart from the shortcut, RangeTest accepts exactly the values from 0 to
   * the reference maximum: a negative value fails even when the
   * reference kind could hold it.
   */
  lemma RangeTestMeaning(tk: IntKind, t: int, rk: IntKind)
    requires InRange(tk, t)
    ensures RangeTest(tk, t, rk) <==> Fits(tk, rk) || 0 <= t <= MaxOf(rk)
  {
    if !Fits(tk, rk) {
      RangeTestValuePath(tk, t, rk);
      KindBounds(tk);
      KindBounds(rk);
      WrapWide(t);
      if t >= Two63 {
        HighValueOutside(tk, t, rk);
      }
      WrappedWindow(t, Wrap(Uint64, t), Wrap(Int64, t), MinOf(rk), MaxOf(rk));
    }
  }

  /** Without the shortcut, RangeTest compares the wrapped value with the reference kind's range. */
  lemma RangeTestValuePath(tk: IntKind, t: int, rk: IntKind)
    requires InRange(tk, t) && !Fits(tk, rk)
    ensures RangeTest(tk, t, rk) == (Wrap(Uint64, t) <= MaxOf(rk) && Wrap(Int64, t) >= MinOf(rk))
  {
    MinAndMaxKind(rk);
  }

  /** A value of 2^63 or more is a uint64, and a reference kind that could hold it would take the shortcut. */
  lemma HighValueOutside(tk: IntKind, t: int, rk: IntKind)
    requires InRange(tk, t) && !Fits(tk, rk) && t >= Two63
    ensures MaxOf(rk) < t
  {
    KindBounds(tk);
    KindBounds(rk);
    FitsBits(tk, rk);
  }

  /**
   * The arithmetic of the value path: with `u` and `v` the uint64 and
   * int64 conversions of `t`, `u <= hi && v >= lo` holds exactly when
   * `0 <= t <= hi`, for a range whose upper half excludes negatives.
   */
  lemma WrappedWindow(t: int, u: int, v: int, lo: int, hi: int)
    requires -(Two63 as int) <= t < Two64
    requires u == (if t < 0 then t + Two64 else t) && v == (if t >= Two63 then t - Two64 else t)
    requires lo <= 0 && hi < Two64 && (hi >= Two63 ==> lo == 0) && (t >= Two63 ==> hi < t)
    ensures (u <= hi && v >= lo) <==> 0 <= t <= hi
  {
  }

  /** A value RangeTest lets through is representable in the reference kind. */
  lemma RangeTestSound(tk: IntKind, t: int, rk: IntKind)
    requires InRange(tk, t) && RangeTest(tk, t, rk)
    ensures InRange(rk, t)
  {
    RangeTestMeaning(tk, t, rk);
    FitsMeaning(tk, rk);
    KindBounds(rk);
  }

  /** The errors of CoerceScalar. */
  datatype CoerceError = NilArgument | NotRepresentable | ParseFailed(e: NumError) | NotConvertible

  function ParseErr(e: NumError): Option<CoerceError> {
    if e == NoError then None else Some(ParseFailed(e))
  }

  /**
   * The pairs (reference kind, value kind) for which coerce.go converts
   * without a range test, besides equal kinds, as written: its comments
   * take int and uint to be 32 bits wide.
   */
  function UntestedAsWritten(rk: IntKind, vk: IntKind): bool {
    match rk
    case Int => vk in {Int8, Int16, Int32, Uint8, Uint16}
    case Int8 => false
    case Int16 => vk in {Int8, Uint8}
    case Int32 => vk in {Int, Int8, Int16, Uint8, Uint16}
    case Int64 => vk in {Int, Int8, Int16, Int32, Uint, Uint8, Uint16, Uint32}
    case Uint => vk in {Uint8, Uint16, Uint32}
    case Uint8 => false
    case Uint16 => vk == Uint8
    case Uint32 => vk in {Uint, Uint8, Uint16}
    case Uint64 => vk in {Uint, Uint8, Uint16, Uint32}
  }

  /** The same table, keeping only the pairs whose value range lies within the reference range. */
  function UntestedCorrected(rk: IntKind, vk: IntKind): bool {
    UntestedAsWritten(rk, vk) && MinOf(rk) <= MinOf(vk) && MaxOf(vk) <= MaxOf(rk)
  }

  /** The three pairs the table lets through without a test on a 64-bit platform. */
  lemma UntestedDifference(rk: IntKind, vk: IntKind)
    ensures UntestedAsWritten(rk, vk) && !UntestedCorrected(rk, vk) <==>
      (rk, vk) == (Int32, Int) || (rk, vk) == (Int64, Uint) || (rk, vk) == (Uint32, Uint)
  {
    KindLits(rk);
    KindLits(vk);
  }

  /**
   * CoerceScalar with a given table of untested pairs: the value `val`
   * converted to the type of `ref`, with an error when an argument is nil,
   * the value does not fit, a string does not parse or there is no case
   * for the pair. The converted value is returned even with a range
   * or parse error.
   */
  function CoerceBy(untested: (IntKind, IntKind) -> bool, ref: Value, val: Value): (r: (Value, Option<CoerceError>))
    requires Wf(val)
    ensures r.1 != Some(NotConvertible) && r.1 != Some(NilArgument) ==>
      ref.Plain? && r.0.Plain? && BaseOf(r.0.x) == BaseOf(ref.x) && ScalarOk(r.0.x)
    ensures ref == Nil || val == Nil ==> r.1 == Some(NilArgument)
    ensures ref != Nil && val != Nil && (!ref.Plain? || !val.Plain?) ==> r.1 == Some(NotConvertible)
    ensures ref.Plain? && ref.x.B? && val.Plain? && val.x.I? ==> r == (Plain(B(val.x.n != 0)), None)
  {
    if ref == Nil || val == Nil then (Nil, Some(NilArgument))
    else if !ref.Plain? || !val.Plain? then (Nil, Some(NotConvertible))
    else match ref.x
      case B(_) =>
        (match val.x
         case B(b) => (Plain(B(b)), None)
         case I(_, n) => (Plain(B(n != 0)), None)
         case S(s) => var p := ParseBool(s); (Plain(B(p.0)), ParseErr(p.1)))
      case I(rk, _) =>
        (match val.x
         case B(b) => (Plain(I(rk, if b then 1 else 0)), None)
         case I(vk, n) =>
           var ok := vk == rk || untested(rk, vk) || RangeTest(vk, n, rk);
           (Plain(I(rk, Wrap(rk, n))), if ok then None else Some(NotRepresentable))
         case S(s) =>
           if IsSigned(rk) then
             var p := ParseInt(s, KindBits(rk));
             (Plain(I(rk, Wrap(rk, p.0))), ParseErr(p.1))
           else
             var p := ParseUint(s, KindBits(rk));
             (Plain(I(rk, Wrap(rk, p.0))), ParseErr(p.1)))
      case S(_) =>
        (match val.x
         case B(b) => (Plain(S(FormatBool(b))), None)
         case I(_, n) => (Plain(S(FormatInt(n))), None)
         case S(s) => (Plain(S(s)), None))
  }

  /** types.CoerceScalar as written. */
  function CoerceScalarAsWritten(ref: Value, val: Value): (r: (Value, Option<CoerceError>))
    requires Wf(val)
    ensures r == CoerceBy(UntestedAsWritten, ref, val)
  {
    CoerceBy(UntestedAsWritten, ref, val)
  }

  /**
   * types.CoerceScalar as its range comments intend on a 64-bit platform:
   * the untested pairs restricted to those whose range fits.
   */
  function CoerceScalarIntended(ref: Value, val: Value): (r: (Value, Option<CoerceError>))
    requires Wf(val)
    ensures r == CoerceBy(UntestedCorrected, ref, val)
  {
    CoerceBy(UntestedCorrected, ref, val)
  }

  /** As written, an int of 2^40 coerces to int32 as 0 with no error. */
  lemma CoerceTruncatesAsWritten()
    ensures Wf(Plain(I(Int, 0x100_0000_0000))) &&
      CoerceScalarAsWritten(Plain(I(Int32, 0)), Plain(I(Int, 0x100_0000_0000))) == (Plain(I(Int32, 0)), None)
  {
    CoerceIntInt(UntestedAsWritten, Int32, Int, 0x100_0000_0000, 0);
  }

  /**
   * With the corrected table an integer coerces without an error only when
   * its value is kept, and a value the reference kind holds coerces without
   * an error unless it is negative and the kinds' signedness or widths
   * make RangeTest take its value path.
   */
  lemma CoerceScalarKeepsValue(rk: IntKind, vk: IntKind, n: int, m: int)
    requires InRange(vk, n)
    ensures var r := CoerceScalarIntended(Plain(I(rk, m)), Plain(I(vk, n)));
      (r.1 == None ==> r.0 == Plain(I(rk, n))) &&
      (InRange(rk, n) && (n >= 0 || Fits(vk, rk)) ==> r.1 == None)
  {
    CoerceIntInt(UntestedCorrected, rk, vk, n, m);
    RangeTestMeaning(vk, n, rk);
    FitsMeaning(vk, rk);
    if RangeTest(vk, n, rk) {
      RangeTestSound(vk, n, rk);
    }
  }

  lemma CoerceIntInt(untested: (IntKind, IntKind) -> bool, rk: IntKind, vk: IntKind, n: int, m: int)
    requires InRange(vk, n)
    ensures CoerceBy(untested, Plain(I(rk, m)), Plain(I(vk, n))) ==
      (Plain(I(rk, Wrap(rk, n))), if vk == rk || untested(rk, vk) || RangeTest(vk, n, rk) then None else Some(NotRepresentable))
  {
  }

  /** The as-written and corrected versions agree on every pair outside the three 64-bit ones. */
  lemma CoerceVersionsAgree(ref: Value, val: Value)
    requires Wf(val)
    requires ref.Plain? && ref.x.I? && val.Plain? && val.x.I? ==>
      !((ref.x.k, val.x.k) == (Int32, Int) || (ref.x.k, val.x.k) == (Int64, Uint) || (ref.x.k, val.x.k) == (Uint32, Uint))
    ensures CoerceScalarAsWritten(ref, val) == CoerceScalarIntended(ref, val)
  {
    if ref.Plain? && ref.x.I? && val.Plain? && val.x.I? {
      UntestedDifference(ref.x.k, val.x.k);
    }
  }

  /** An int coerces to int8 as its wrapped value, with an error unless it lies in 0..127. */
  lemma CoerceIntToInt8(n: int)
    requires InRange(Int, n)
    ensures CoerceScalarAsWritten(Plain(I(Int8, 0)), Plain(I(Int, n))) ==
      (Plain(I(Int8, Wrap(Int8, n))), if 0 <= n <= 0x7f then None else Some(NotRepresentable))
  {
    CoerceIntInt(UntestedAsWritten, Int8, Int, n, 0);
    RangeTestMeaning(Int, n, Int8);
    FitsMeaning(Int, Int8);
  }

  /** The examples of coerce_test.go. */
  lemma CoerceInt8Examples()
    ensures CoerceScalarAsWritten(Plain(I(Int8, 0)), Plain(I(Int, 100))) == (Plain(I(Int8, 100)), None)
    ensures CoerceScalarAsWritten(Plain(I(Int8, 0)), Plain(I(Int, 500))) == (Plain(I(Int8, -12)), Some(NotRepresentable))
    ensures CoerceScalarAsWritten(Plain(I(Int8, 0)), Plain(I(Int, -5))).1 == Some(NotRepresentable)
  {
    CoerceIntToInt8(100);
    CoerceIntToInt8(500);
    CoerceIntToInt8(-5);
  }
}
