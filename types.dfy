/**
 * pkg/types: the type codes fflag uses to describe a flag's value, and the
 * conversion of values to and from strings. A value is a closed tagged
 * union over bool, the ten Go integer kinds and string, each either held
 * directly or behind a pointer, as a scalar or as a slice; anything else is
 * opaque (it may implement the SetValue interface). A Go pointer is
 * represented by the value it points to: writing through it returns the
 * new value.
 */
module Types {
  import opened Wrappers
  import opened GoText

  /** types.TypeId: a 16-bit set of type bits with a 3-bit width code. */
  type TypeId = bv16

  const NumBits: TypeId := 0x0007
  const Bits8: TypeId := 0x0001
  const Bits16: TypeId := 0x0002
  const Bits32: TypeId := 0x0003
  const Bits64: TypeId := 0x0004
  const BoolT: TypeId := 0x0008
  const IntT: TypeId := 0x0010
  const UintT: TypeId := 0x0020
  const FloatT: TypeId := 0x0040
  const StringT: TypeId := 0x0080
  const SliceT: TypeId := 0x0100
  const PointerT: TypeId := 0x0200
  const SetterT: TypeId := 0x4000
  const OtherT: TypeId := 0x8000

  /** The SetXxxBit methods: `bit` becomes set and nothing else changes. */
  function SetBit(tp: TypeId, bit: TypeId): (r: TypeId)
    ensures r & bit == bit
    ensures r & !bit == tp & !bit
  {
    tp | bit
  }

  /** The ClrXxxBit methods: `bit` becomes clear and nothing else changes. */
  function ClrBit(tp: TypeId, bit: TypeId): (r: TypeId)
    ensures r & bit == 0
    ensures r & !bit == tp & !bit
  {
    tp & !bit
  }

  /** The TstXxxBit methods. */
  predicate Tst(tp: TypeId, bit: TypeId) {
    tp & bit != 0
  }

  predicate TstAnyNum(tp: TypeId) {
    Tst(tp, IntT) || Tst(tp, UintT) || Tst(tp, FloatT)
  }

  /** Setting a type bit makes its test true; clearing it makes it false. */
  lemma SetClrTst(tp: TypeId, bit: TypeId)
    requires bit != 0
    ensures Tst(SetBit(tp, bit), bit) && !Tst(ClrBit(tp, bit), bit)
    ensures ClrBit(SetBit(tp, bit), bit) == ClrBit(tp, bit)
  {
  }

  /** Two type codes have the same base type when only pointer and slice bits differ. */
  function SameBaseType(a: TypeId, b: TypeId): (r: bool)
    ensures r <==> a | PointerT | SliceT == b | PointerT | SliceT
  {
    var mask := !(PointerT | SliceT);
    a & mask == b & mask
  }

  /** The number of bits the width code denotes, 0 when there is none. */
  function BitSize(tp: TypeId): (r: nat)
    ensures tp & NumBits == 0 <==> r == 0
    ensures tp & NumBits == Bits8 ==> r == 8
    ensures tp & NumBits == Bits16 ==> r == 16
    ensures tp & NumBits == Bits32 ==> r == 32
    ensures tp & NumBits == Bits64 ==> r == 64
  {
    var n := tp & NumBits;
    assert Pow2(3) == 8;
    if n == 0 then 0 else 8 * Pow2(n as int - 1)
  }

  /** The number of binary digits of `n`. */
  function BitLength(n: nat): (r: nat)
    ensures r <= n
  {
    if n == 0 then 0 else 1 + BitLength(n / 2)
  }

  /** The width code of Go's int and uint on a 64-bit platform. */
  const IntBitsId: TypeId := Bits64

  /**
   * types.IntBits: counts the halvings of the byte size of int until it
   * reaches zero; the code found denotes IntSize bits.
   */
  method IntBits() returns (r: TypeId)
    ensures r == IntBitsId
    ensures BitSize(r) == IntSize
  {
    var nbytes: nat := IntSize / 8;
    var n: nat := 0;
    while nbytes != 0
      invariant n + BitLength(nbytes) == BitLength(IntSize / 8)
      decreases nbytes
    {
      n := n + 1;
      nbytes := nbytes / 2;
    }
    assert BitLength(8) == 4;
    r := n as bv16;
  }

  /** The Go integer kinds. */
  datatype IntKind = Int | Int8 | Int16 | Int32 | Int64 | Uint | Uint8 | Uint16 | Uint32 | Uint64

  predicate IsSigned(k: IntKind) {
    k.Int? || k.Int8? || k.Int16? || k.Int32? || k.Int64?
  }

  function KindBits(k: IntKind): (n: nat)
    ensures ValidBitSize(n) && n >= 8
  {
    match k
    case Int => IntSize
    case Int8 => 8
    case Int16 => 16
    case Int32 => 32
    case Int64 => 64
    case Uint => IntSize
    case Uint8 => 8
    case Uint16 => 16
    case Uint32 => 32
    case Uint64 => 64
  }

  /** The range of each integer kind. */
  function MinOf(k: IntKind): int {
    if IsSigned(k) then MinInt(KindBits(k)) else 0
  }

  function MaxOf(k: IntKind): int {
    if IsSigned(k) then MaxInt(KindBits(k)) else MaxUint(KindBits(k))
  }

  predicate InRange(k: IntKind, n: int) {
    MinOf(k) <= n <= MaxOf(k)
  }

  /** The range of each kind, in numbers. */
  lemma KindLits(k: IntKind)
    ensures MinOf(k) == match k
      case Int8 => -0x80 case Int16 => -0x8000 case Int32 => -0x8000_0000
      case Int | Int64 => -(Two63 as int) case _ => 0
    ensures MaxOf(k) == match k
      case Int8 => 0x7f case Int16 => 0x7fff case Int32 => 0x7fff_ffff
      case Int | Int64 => Two63 - 1
      case Uint8 => 0xff case Uint16 => 0xffff case Uint32 => 0xffff_ffff
      case Uint | Uint64 => Two64 - 1
  {
  }

  /**
   * Go's conversion of an integer to kind `k`: two's-complement
   * truncation to the kind's width, into the window of the kind's range
   * (written out per kind).
   */
  function Wrap(k: IntKind, n: int): (r: int)
    ensures InRange(k, r)
    ensures InRange(k, n) ==> r == n
  {
    match k
    case Int8 => WrapIn(n, -0x80, 0x100)
    case Int16 => WrapIn(n, -0x8000, 0x1_0000)
    case Int32 => WrapIn(n, -0x8000_0000, 0x1_0000_0000)
    case Int | Int64 => WrapIn(n, -(Two63 as int), Two64)
    case Uint8 => WrapIn(n, 0, 0x100)
    case Uint16 => WrapIn(n, 0, 0x1_0000)
    case Uint32 => WrapIn(n, 0, 0x1_0000_0000)
    case Uint | Uint64 => WrapIn(n, 0, Two64)
  }

  /** Reduces `n` into the window of `m` integers starting at `lo`. */
  function WrapIn(n: int, lo: int, m: int): (r: int)
    requires m > 0
    ensures lo <= r < lo + m
    ensures lo <= n < lo + m ==> r == n
  {
    WrapUnsigned(n - lo, m);
    (n - lo) % m + lo
  }

  lemma WrapUnsigned(n: int, m: nat)
    requires m > 0
    ensures 0 <= n % m < m
    ensures 0 <= n < m ==> n % m == n
  {
  }

  /** A scalar value: a bool, an integer of some kind, or a string. */
  datatype Scalar = B(b: bool) | I(k: IntKind, n: int) | S(s: string)

  /** The element type of a slice. */
  datatype Base = BoolB | IntB(k: IntKind) | StrB

  /** What `%T` shows of an opaque value: bare, `*`, `[]` or `*[]`. */
  datatype Shape = Bare | Pointer | Slice | PointerSlice

  /**
   * A value behind an interface{}: nil, a scalar, a slice, a pointer to
   * either, or something opaque that may implement SetValue (its setter
   * is named by a number).
   */
  datatype Value =
    | Nil
    | Plain(x: Scalar)
    | List(base: Base, xs: seq<Scalar>)
    | PtrTo(x: Scalar)
    | PtrToList(base: Base, xs: seq<Scalar>)
    | Opaque(setter: Option<nat>, shape: Shape)

  function BaseOf(x: Scalar): Base {
    match x
    case B(_) => BoolB
    case I(k, _) => IntB(k)
    case S(_) => StrB
  }

  predicate ScalarOk(x: Scalar) {
    x.I? ==> InRange(x.k, x.n)
  }

  predicate ItemsOk(b: Base, xs: seq<Scalar>) {
    forall i :: 0 <= i < |xs| ==> BaseOf(xs[i]) == b && ScalarOk(xs[i])
  }

  /** Every integer is within its kind and every slice item has the slice's type. */
  predicate Wf(v: Value) {
    match v
    case Plain(x) => ScalarOk(x)
    case PtrTo(x) => ScalarOk(x)
    case List(b, xs) => ItemsOk(b, xs)
    case PtrToList(b, xs) => ItemsOk(b, xs)
    case _ => true
  }

  /** The width code of an integer kind. */
  function WidthCode(k: IntKind): TypeId {
    match k
    case Int => IntBitsId
    case Int8 => Bits8
    case Int16 => Bits16
    case Int32 => Bits32
    case Int64 => Bits64
    case Uint => IntBitsId
    case Uint8 => Bits8
    case Uint16 => Bits16
    case Uint32 => Bits32
    case Uint64 => Bits64
  }

  /** The type code of an integer kind: its signedness bit and its width. */
  function KindType(k: IntKind): (t: TypeId)
    ensures BitSize(t) == KindBits(k)
    ensures Tst(t, IntT) <==> IsSigned(k)
    ensures Tst(t, UintT) <==> !IsSigned(k)
    ensures t & (BoolT | FloatT | StringT | SliceT | PointerT | SetterT | OtherT) == 0
    ensures t & !NumBits == (if IsSigned(k) then IntT else UintT)
  {
    (if IsSigned(k) then IntT else UintT) | WidthCode(k)
  }

  /** int and int64 (uint and uint64) share a type code; the other kinds do not. */
  function Canon(k: IntKind): IntKind {
    if k == Int then Int64 else if k == Uint then Uint64 else k
  }

  lemma KindTypeCollisions(a: IntKind, b: IntKind)
    ensures KindType(a) == KindType(b) <==> Canon(a) == Canon(b)
  {
  }

  function BaseType(b: Base): TypeId {
    match b
    case BoolB => BoolT
    case IntB(k) => KindType(k)
    case StrB => StringT
  }

  function ShapeBits(s: Shape): TypeId {
    match s
    case Bare => 0
    case Pointer => PointerT
    case Slice => SliceT
    case PointerSlice => PointerT | SliceT
  }

  /** types.Type: the type code of a value. */
  function Type(v: Value): TypeId {
    match v
    case Nil => 0
    case Plain(x) => BaseType(BaseOf(x))
    case List(b, _) => SliceT | BaseType(b)
    case PtrTo(x) => PointerT | BaseType(BaseOf(x))
    case PtrToList(b, _) => PointerT | SliceT | BaseType(b)
    case Opaque(setter, shape) => (if setter.Some? then SetterT else OtherT) | ShapeBits(shape)
  }

  /** Two values of one kind: the same pointer or slice shape over the same base, or equal. */
  predicate SameKind(a: Value, b: Value) {
    match b
    case PtrTo(x) => a.PtrTo? && BaseOf(a.x) == BaseOf(x)
    case PtrToList(base, _) => a.PtrToList? && a.base == base
    case _ => a == b
  }

  /** Values of one kind have one type code. */
  lemma SameKindType(a: Value, b: Value)
    requires SameKind(a, b)
    ensures Type(a) == Type(b)
  {
  }

  /** The pointer, slice, setter and unsupported bits of Type say what a value is. */
  lemma TypeBits(v: Value)
    ensures Tst(Type(v), PointerT) <==> v.PtrTo? || v.PtrToList? || (v.Opaque? && (v.shape == Pointer || v.shape == PointerSlice))
    ensures Tst(Type(v), SliceT) <==> v.List? || v.PtrToList? || (v.Opaque? && (v.shape == Slice || v.shape == PointerSlice))
    ensures Tst(Type(v), SetterT) <==> v.Opaque? && v.setter.Some?
    ensures Tst(Type(v), OtherT) <==> v.Opaque? && v.setter.None?
    ensures Type(v) == 0 <==> v == Nil
  {
    match v
    case Plain(x) =>
      var k := BaseType(BaseOf(x));
    case PtrTo(x) =>
      var k := BaseType(BaseOf(x));
    case _ =>
  }

  /** A pointer to a value, or a slice of it, has the value's base type. */
  lemma PointerSliceSameBase(x: Scalar)
    ensures SameBaseType(Type(PtrTo(x)), Type(Plain(x)))
    ensures SameBaseType(Type(List(BaseOf(x), [x])), Type(Plain(x)))
    ensures SameBaseType(Type(PtrToList(BaseOf(x), [])), Type(Plain(x)))
    ensures !SameBaseType(Type(Plain(x)), Type(Plain(if x.B? then S("") else B(false))))
  {
    var t := BaseType(BaseOf(x));
    BaseTypeBits(BaseOf(x));
    assert Type(PtrTo(x)) == PointerT | t;
    assert Type(List(BaseOf(x), [x])) == SliceT | t;
    assert Type(PtrToList(BaseOf(x), [])) == PointerT | SliceT | t;
  }

  /** A base type code has no pointer or slice bit, and the three bases differ outside them. */
  lemma BaseTypeBits(b: Base)
    ensures BaseType(b) & (PointerT | SliceT) == 0
    ensures b != StrB ==> BaseType(b) | PointerT | SliceT != StringT | PointerT | SliceT
    ensures b != BoolB ==> BaseType(b) | PointerT | SliceT != BoolT | PointerT | SliceT
  {
    if b.IntB? {
      var k := KindType(b.k);
    }
  }

  /** The items of a slice, or of a pointer to a slice. */
  function Items(v: Value): seq<Scalar>
    requires v.List? || v.PtrToList?
  {
    if v.List? then v.xs else v.xs
  }

  /** types.SliceLen: the length of a slice or slice pointer, otherwise -1. */
  function SliceLen(v: Value): (r: int)
    ensures r >= -1
  {
    match v
    case List(_, xs) => |xs|
    case PtrToList(_, xs) => |xs|
    case _ => -1
  }

  /** SliceLen has a length exactly for the supported values Type marks as slices. */
  lemma SliceLenType(v: Value)
    ensures SliceLen(v) >= 0 <==> Tst(Type(v), SliceT) && !v.Opaque?
    ensures SliceLen(v) >= 0 ==> SliceLen(v) == |Items(v)|
  {
    TypeBits(v);
  }

  /** types.ItemAt: item i of a slice, nil for anything else or out of range. */
  function ItemAt(v: Value, i: int): (r: Value)
    ensures r != Nil <==> 0 <= i < SliceLen(v)
    ensures r != Nil ==> r == Plain(Items(v)[i])
  {
    if i < 0 then Nil
    else match v
      case List(_, xs) => if i < |xs| then Plain(xs[i]) else Nil
      case PtrToList(_, xs) => if i < |xs| then Plain(xs[i]) else Nil
      case _ => Nil
  }

  /** The separator defaults: ", " for StrConv, "," for FromStr. */
  const StrConvSep: string := ", "
  const FromStrSep: string := ","

  /** The base-10 text of a scalar. */
  function Format(x: Scalar): string {
    match x
    case B(b) => FormatBool(b)
    case I(_, n) => FormatInt(n)
    case S(s) => s
  }

  function FormatAll(xs: seq<Scalar>): (r: seq<string>)
    ensures |r| == |xs| && forall i :: 0 <= i < |xs| ==> r[i] == Format(xs[i])
  {
    seq(|xs|, i requires 0 <= i < |xs| => Format(xs[i]))
  }

  /**
   * types.StrConv: the text of a value, "" for an empty slice; the items
   * of a slice are joined with `sep`. Values it has no case for give "".
   */
  function StrConvOf(v: Value, sep: string): (r: string)
    ensures SliceLen(v) == 0 ==> r == ""
  {
    if SliceLen(v) == 0 then ""
    else match v
      case Plain(x) => Format(x)
      case PtrTo(x) => Format(x)
      case List(_, xs) => Join(FormatAll(xs), sep)
      case PtrToList(_, xs) => Join(FormatAll(xs), sep)
      case _ => ""
  }

  lemma {:induction false} JoinSnoc(xs: seq<string>, x: string, sep: string)
    requires |xs| >= 1
    ensures Join(xs + [x], sep) == Join(xs, sep) + sep + x
    decreases |xs|
  {
    if |xs| == 1 {
      assert (xs + [x])[1..] == [x];
    } else {
      assert (xs + [x])[1..] == xs[1..] + [x];
      JoinSnoc(xs[1..], x, sep);
    }
  }

  /**
   * types.StrConv as written: a buffer that receives the first item and
   * then, for each further item, the separator and the item.
   */
  method StrConv(v: Value, sep: string) returns (s: string)
    ensures s == StrConvOf(v, sep)
  {
    if SliceLen(v) == 0 {
      return "";
    }
    match v {
      case Plain(x) => s := Format(x);
      case PtrTo(x) => s := Format(x);
      case Opaque(_, _) => s := "";
      case Nil => s := "";
      case _ =>
        var xs := Items(v);
        var parts := FormatAll(xs);
        s := Format(xs[0]);
        assert parts[..1] == [parts[0]];
        var i := 1;
        while i < |xs|
          invariant 1 <= i <= |xs|
          invariant s == Join(parts[..i], sep)
        {
          assert parts[..i + 1] == parts[..i] + [parts[i]];
          JoinSnoc(parts[..i], parts[i], sep);
          s := s + sep + Format(xs[i]);
          i := i + 1;
        }
        assert parts[..i] == parts;
    }
  }

  /** The error FromStr returns. */
  datatype TypesError = Unsupported | NotPointer | BadSyntax | OutOfRange | Refused

  function NumErr(e: NumError): TypesError {
    if e == ErrRange then OutOfRange else BadSyntax
  }

  /** Whether the SetValue implementation named `id` accepts a string. */
  type Accepts = (nat, string) -> bool

  /**
   * Parsing one item for a target of base type `b`: strconv.ParseBool,
   * ParseInt or ParseUint at the kind's width, or the string itself.
   */
  function ParseItem(b: Base, str: string): (r: (Scalar, Option<TypesError>))
    ensures r.1 == None ==> BaseOf(r.0) == b && ScalarOk(r.0)
    ensures b == StrB ==> r == (S(str), None)
  {
    match b
    case BoolB =>
      var p := ParseBool(str);
      if p.1 == NoError then (B(p.0), None) else (B(false), Some(NumErr(p.1)))
    case IntB(k) =>
      if IsSigned(k) then
        var p := ParseInt(str, KindBits(k));
        if p.1 == NoError then (I(k, p.0), None) else (I(k, 0), Some(NumErr(p.1)))
      else
        var p := ParseUint(str, KindBits(k));
        if p.1 == NoError then (I(k, p.0), None) else (I(k, 0), Some(NumErr(p.1)))
    case StrB => (S(str), None)
  }

  /** What ParseItem accepts, and the value it reads, for each base type. */
  lemma ParseItemMeaning(b: Base, str: string)
    ensures b == BoolB ==> (ParseItem(b, str).1 == None <==> ParseBool(str).1 == NoError)
    ensures b.IntB? && IsSigned(b.k) ==>
      (ParseItem(b, str).1 == None <==> IsDecimal(str) && InRange(b.k, DecimalValue(str)))
    ensures b.IntB? && IsSigned(b.k) && ParseItem(b, str).1 == None ==> ParseItem(b, str).0.n == DecimalValue(str)
    ensures b.IntB? && !IsSigned(b.k) ==>
      (ParseItem(b, str).1 == None <==> str != "" && AllDigits(str) && InRange(b.k, DigitsFrom(0, str)))
    ensures b.IntB? && !IsSigned(b.k) && ParseItem(b, str).1 == None ==> ParseItem(b, str).0.n == DigitsFrom(0, str)
  {
  }

  /** Items of a numeric or bool slice are trimmed of white space; strings are not. */
  function Trimmed(b: Base, item: string): string {
    if b == StrB then item else TrimSpace(item)
  }

  /**
   * Appending the parsed items one by one to `acc`; the first item that
   * does not parse stops the run, and the items appended before it stay.
   */
  function Appended(b: Base, acc: seq<Scalar>, items: seq<string>): (r: (seq<Scalar>, Option<TypesError>))
    ensures |acc| <= |r.0| <= |acc| + |items| && r.0[..|acc|] == acc
    ensures r.1 == None ==> |r.0| == |acc| + |items|
    ensures ItemsOk(b, acc) ==> ItemsOk(b, r.0)
    decreases |items|
  {
    if items == [] then (acc, None)
    else
      var p := ParseItem(b, Trimmed(b, items[0]));
      if p.1.Some? then (acc, p.1)
      else
        var r := Appended(b, acc + [p.0], items[1..]);
        PrefixOfSnoc(acc, p.0, r.0);
        ItemsOkSnoc(b, acc, p.0);
        r
  }

  lemma PrefixOfSnoc<T>(acc: seq<T>, x: T, r: seq<T>)
    requires |acc| + 1 <= |r| && r[..|acc| + 1] == acc + [x]
    ensures r[..|acc|] == acc
  {
    assert r[..|acc|] == r[..|acc| + 1][..|acc|];
  }

  lemma ItemsOkSnoc(b: Base, acc: seq<Scalar>, x: Scalar)
    requires BaseOf(x) == b && ScalarOk(x)
    ensures ItemsOk(b, acc) ==> ItemsOk(b, acc + [x])
  {
  }

  /**
   * types.FromStr: a SetValue takes the string; an unsupported value or
   * one that is not a pointer is an error; a pointer to a scalar receives
   * the parsed string; a pointer to a slice is extended with the parsed
   * pieces of the string split on `sep`. With `doSet` false the string is
   * checked and nothing is written.
   */
  function FromStrOf(target: Value, str: string, sep: string, doSet: bool, accepts: Accepts): (r: (Value, Option<TypesError>))
    ensures SameKind(r.0, target)
    ensures !doSet ==> r.0 == target
  {
    TypeBits(target);
    match target
    case Opaque(setter, _) =>
      if setter.Some? then (target, if accepts(setter.value, str) then None else Some(Refused))
      else (target, Some(Unsupported))
    case PtrTo(x) =>
      var p := ParseItem(BaseOf(x), str);
      if p.1.Some? then (target, p.1)
      else (if doSet then PtrTo(p.0) else target, None)
    case PtrToList(b, xs) =>
      var a := Appended(b, xs, Split(str, sep));
      (if doSet then PtrToList(b, a.0) else target, a.1)
    case _ => (target, Some(NotPointer))
  }

  /**
   * FromStr keeps the type of its target and writes only through a
   * pointer; an opaque target without SetValue is unsupported and a
   * target that is no pointer is refused; a slice only grows.
   */
  lemma FromStrShape(target: Value, str: string, sep: string, doSet: bool, accepts: Accepts)
    ensures var r := FromStrOf(target, str, sep, doSet, accepts);
      Type(r.0) == Type(target) && (Wf(target) ==> Wf(r.0)) &&
      (!target.PtrTo? && !target.PtrToList? ==> r.0 == target) &&
      ((target.Opaque? && target.setter.None?) ==> r.1 == Some(Unsupported)) &&
      (!Tst(Type(target), PointerT) && !Tst(Type(target), SetterT) && !Tst(Type(target), OtherT) ==> r.1 == Some(NotPointer)) &&
      (target.PtrToList? ==> r.0.PtrToList? && |r.0.xs| >= |target.xs| && r.0.xs[..|target.xs|] == target.xs)
  {
    TypeBits(target);
    var r := FromStrOf(target, str, sep, doSet, accepts);
    SameKindType(r.0, target);
  }

  /**
   * types.FromStr as written for a slice target: a loop over the pieces
   * that appends each parsed item and returns at the first error.
   */
  method FromStr(target: Value, str: string, sep: string, doSet: bool, accepts: Accepts) returns (v: Value, err: Option<TypesError>)
    ensures (v, err) == FromStrOf(target, str, sep, doSet, accepts)
  {
    if !target.PtrToList? {
      v, err := FromStrOf(target, str, sep, doSet, accepts).0, FromStrOf(target, str, sep, doSet, accepts).1;
      return;
    }
    var b := target.base;
    var items := Split(str, sep);
    var acc := target.xs;
    var i := 0;
    err := None;
    while i < |items|
      invariant 0 <= i <= |items|
      invariant Appended(b, acc, items[i..]) == Appended(b, target.xs, items)
      invariant err == None
    {
      var p := ParseItem(b, Trimmed(b, items[i]));
      assert items[i..][0] == items[i] && items[i..][1..] == items[i + 1..];
      if p.1.Some? {
        err := p.1;
        break;
      }
      acc := acc + [p.0];
      i := i + 1;
    }
    assert i == |items| ==> items[i..] == [];
    v := if doSet then PtrToList(b, acc) else target;
  }

  /** A separator character that never occurs in the text of a number or a bool. */
  predicate SafeSep(c: char) {
    !IsDigit(c) && c != '-' && !('a' <= c <= 'z') && !IsSpace(c)
  }

  /** The text of an integer holds only digits and minus signs. */
  lemma IntTextChars(n: int)
    ensures forall i :: 0 <= i < |FormatInt(n)| ==> IsDigit(FormatInt(n)[i]) || FormatInt(n)[i] == '-'
  {
    if n < 0 {
      var d := FormatNat(-n);
      assert FormatInt(n) == "-" + d;
      assert forall i :: 1 <= i < |FormatInt(n)| ==> FormatInt(n)[i] == d[i - 1];
    }
  }

  /** The text of a number or a bool has no space at its ends and no safe separator in it. */
  lemma FormatClean(x: Scalar, c: char)
    requires !x.S? && SafeSep(c)
    ensures NoChar(Format(x), c)
    ensures TrimSpace(Format(x)) == Format(x)
  {
    match x
    case B(v) => TextClean(FormatBool(v), c);
    case I(_, n) =>
      IntTextChars(n);
      TextClean(FormatInt(n), c);
  }

  lemma TextClean(f: string, c: char)
    requires SafeSep(c)
    requires forall i :: 0 <= i < |f| ==> IsDigit(f[i]) || f[i] == '-' || 'a' <= f[i] <= 'z'
    ensures NoChar(f, c) && TrimSpace(f) == f
  {
    if |f| > 0 {
      assert IsDigit(f[0]) || f[0] == '-' || 'a' <= f[0] <= 'z';
      assert IsDigit(f[|f| - 1]) || f[|f| - 1] == '-' || 'a' <= f[|f| - 1] <= 'z';
    }
    TrimSpaceKeeps(f);
  }

  /** ParseItem reads back the text Format writes. */
  lemma ParseFormat(x: Scalar)
    requires ScalarOk(x)
    ensures ParseItem(BaseOf(x), Format(x)) == (x, None)
  {
    match x
    case B(b) => ParseFormatBool(b);
    case I(k, n) =>
      if IsSigned(k) {
        ParseFormatInt(n, KindBits(k));
      } else {
        ParseFormatUint(n, KindBits(k));
      }
    case S(_) =>
  }

  /** The items of a slice fit for re-reading: every item has the base, and numbers and bools have no surrounding space. */
  predicate Rereadable(b: Base, xs: seq<Scalar>) {
    ItemsOk(b, xs) && (b != StrB ==> forall i :: 0 <= i < |xs| ==> TrimSpace(Format(xs[i])) == Format(xs[i]))
  }

  lemma AppendFormatted(b: Base, acc: seq<Scalar>, xs: seq<Scalar>)
    requires Rereadable(b, xs)
    ensures Appended(b, acc, FormatAll(xs)) == (acc + xs, None)
  {
    var parts := FormatAll(xs);
    FormattedParsesFrom(b, xs, 0);
    assert parts[0..] == parts && xs[0..] == xs;
    AppendedAll(b, acc, parts, xs);
  }

  /** Piece by piece, `items` parse without error to `xs`. */
  predicate ParsesTo(b: Base, items: seq<string>, xs: seq<Scalar>)
    decreases |items|
  {
    |items| == |xs| &&
    (items == [] || (ParseItem(b, Trimmed(b, items[0])) == (xs[0], None) && ParsesTo(b, items[1..], xs[1..])))
  }

  /** A re-readable item's text parses back to the item. */
  lemma ItemRereads(b: Base, x: Scalar)
    requires BaseOf(x) == b && ScalarOk(x)
    requires b != StrB ==> TrimSpace(Format(x)) == Format(x)
    ensures ParseItem(b, Trimmed(b, Format(x))) == (x, None)
  {
    ParseFormat(x);
  }

  /** The texts of a re-readable slice, from index `k` on, parse back to its items. */
  lemma {:induction false} FormattedParsesFrom(b: Base, xs: seq<Scalar>, k: nat)
    requires k <= |xs| && Rereadable(b, xs)
    ensures ParsesTo(b, FormatAll(xs)[k..], xs[k..])
    decreases |xs| - k
  {
    var parts := FormatAll(xs);
    if k < |xs| {
      FormattedParsesFrom(b, xs, k + 1);
      ItemRereads(b, xs[k]);
      assert parts[k..][0] == parts[k] && parts[k..][1..] == parts[k + 1..];
      assert xs[k..][0] == xs[k] && xs[k..][1..] == xs[k + 1..];
    }
  }

  /** When every piece parses without error, Appended appends all the parsed items. */
  lemma {:induction false} AppendedAll(b: Base, acc: seq<Scalar>, items: seq<string>, xs: seq<Scalar>)
    requires ParsesTo(b, items, xs)
    ensures Appended(b, acc, items) == (acc + xs, None)
    decreases |items|
  {
    if items == [] {
      assert acc + xs == acc;
    } else {
      var x, rest := xs[0], xs[1..];
      AppendedAll(b, acc + [x], items[1..], rest);
      AppendStep(b, acc, items, x);
      ConsRest(acc, xs);
    }
  }

  lemma ConsRest<T>(acc: seq<T>, xs: seq<T>)
    requires |xs| >= 1
    ensures acc + [xs[0]] + xs[1..] == acc + xs
  {
    assert [xs[0]] + xs[1..] == xs;
  }

  lemma AppendStep(b: Base, acc: seq<Scalar>, items: seq<string>, x: Scalar)
    requires |items| >= 1 && ParseItem(b, Trimmed(b, items[0])) == (x, None)
    ensures Appended(b, acc, items) == Appended(b, acc + [x], items[1..])
  {
  }

  /**
   * With the same one-character separator, FromStr into an empty slice
   * reads back what StrConv writes of a non-empty slice, provided the
   * separator occurs in no item's text.
   */
  lemma StrConvFromStrList(b: Base, xs: seq<Scalar>, c: char, accepts: Accepts)
    requires |xs| >= 1 && ItemsOk(b, xs)
    requires b != StrB ==> SafeSep(c)
    requires b == StrB ==> forall i :: 0 <= i < |xs| ==> NoChar(xs[i].s, c)
    ensures FromStrOf(PtrToList(b, []), StrConvOf(PtrToList(b, xs), [c]), [c], true, accepts) == (PtrToList(b, xs), None)
  {
    var parts := FormatAll(xs);
    PartsClean(b, xs, c);
    var str := StrConvOf(PtrToList(b, xs), [c]);
    assert str == Join(parts, [c]);
    SplitJoin(parts, c);
    AppendFormatted(b, [], xs);
    FromStrIntoList(b, [], str, [c], accepts);
    assert [] + xs == xs;
  }

  /** FromStr with `doSet` into a slice pointer stores what Appended gives. */
  lemma FromStrIntoList(b: Base, ys: seq<Scalar>, str: string, sep: string, accepts: Accepts)
    ensures FromStrOf(PtrToList(b, ys), str, sep, true, accepts) ==
      (PtrToList(b, Appended(b, ys, Split(str, sep)).0), Appended(b, ys, Split(str, sep)).1)
  {
  }

  /** With such a separator, no item's text holds it and the slice is re-readable. */
  lemma PartsClean(b: Base, xs: seq<Scalar>, c: char)
    requires ItemsOk(b, xs)
    requires b != StrB ==> SafeSep(c)
    requires b == StrB ==> forall i :: 0 <= i < |xs| ==> NoChar(xs[i].s, c)
    ensures forall i :: 0 <= i < |xs| ==> NoChar(FormatAll(xs)[i], c)
    ensures Rereadable(b, xs)
  {
    forall i | 0 <= i < |xs|
      ensures NoChar(Format(xs[i]), c)
      ensures b != StrB ==> TrimSpace(Format(xs[i])) == Format(xs[i])
    {
      if b != StrB {
        FormatClean(xs[i], c);
      }
    }
  }

  /** FromStr into a scalar pointer reads back what StrConv writes. */
  lemma StrConvFromStrScalar(x: Scalar, y: Scalar, sep: string, accepts: Accepts)
    requires ScalarOk(x) && BaseOf(x) == BaseOf(y)
    ensures FromStrOf(PtrTo(y), StrConvOf(PtrTo(x), sep), sep, true, accepts) == (PtrTo(x), None)
  {
    ParseFormat(x);
  }
}
