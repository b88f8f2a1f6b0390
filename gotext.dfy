/**
 * The parts of Go's strconv and strings packages that fflag relies on:
 * base-10 integer and bool parsing and formatting, strings.Split,
 * strings.Join and strings.TrimSpace. Text is ASCII, one char per byte.
 */
module GoText {
  /** The error a strconv parse function returns: none, ErrSyntax or ErrRange. */
  datatype NumError = NoError | ErrSyntax | ErrRange

  /** strconv.IntSize: Go's int and uint are 64 bits wide here. */
  const IntSize: nat := 64

  function Pow2(n: nat): (r: nat)
    ensures r >= 1
  {
    if n == 0 then 1 else 2 * Pow2(n - 1)
  }

  lemma Pow2Add(a: nat, b: nat)
    ensures Pow2(a + b) == Pow2(a) * Pow2(b)
  {
    if a > 0 {
      Pow2Add(a - 1, b);
    }
  }

  lemma {:induction false} Pow2Mono(a: nat, b: nat)
    requires a <= b
    ensures Pow2(a) <= Pow2(b)
  {
    if a < b {
      Pow2Mono(a, b - 1);
    }
  }

  const Two63: nat := 0x8000_0000_0000_0000
  const Two64: nat := 0x1_0000_0000_0000_0000

  /** The powers of two at the integer widths. */
  lemma Pow2Table()
    ensures Pow2(7) == 0x80 && Pow2(8) == 0x100 && Pow2(15) == 0x8000 && Pow2(16) == 0x1_0000
    ensures Pow2(31) == 0x8000_0000 && Pow2(32) == 0x1_0000_0000
    ensures Pow2(63) == Two63 && Pow2(64) == Two64
  {
    Pow2Word();
    Pow2Dword();
    Pow2Qword();
  }

  lemma Pow2Byte()
    ensures Pow2(7) == 0x80 && Pow2(8) == 0x100
  {
    assert Pow2(8) == 0x100;
  }

  lemma Pow2Word()
    ensures Pow2(7) == 0x80 && Pow2(8) == 0x100 && Pow2(15) == 0x8000 && Pow2(16) == 0x1_0000
  {
    Pow2Byte();
    Pow2Add(8, 7);
    Pow2Add(8, 8);
  }

  lemma Pow2Dword()
    ensures Pow2(31) == 0x8000_0000 && Pow2(32) == 0x1_0000_0000
  {
    Pow2Word();
    Pow2Add(16, 15);
    Pow2Add(16, 16);
  }

  lemma Pow2Qword()
    ensures Pow2(63) == Two63 && Pow2(64) == Two64
  {
    Pow2Dword();
    Pow2Add(32, 31);
    Pow2Add(32, 32);
  }

  /** The bit sizes strconv accepts from fflag; 0 stands for IntSize. */
  predicate ValidBitSize(bitSize: nat) {
    bitSize == 0 || bitSize == 8 || bitSize == 16 || bitSize == 32 || bitSize == 64
  }

  function Bits(bitSize: nat): (b: nat)
    ensures b >= 1
  {
    if bitSize == 0 then IntSize else bitSize
  }

  /** 2^(bits - 1), the size of each half of the range, written out for each width. */
  function Half(bitSize: nat): (h: nat)
    requires ValidBitSize(bitSize)
    ensures h >= 0x80
  {
    match Bits(bitSize)
    case 8 => 0x80
    case 16 => 0x8000
    case 32 => 0x8000_0000
    case _ => Two63
  }

  /** Half is the power of two below the width. */
  lemma HalfPow2(bitSize: nat)
    requires ValidBitSize(bitSize)
    ensures Half(bitSize) == Pow2(Bits(bitSize) - 1)
    ensures 2 * Half(bitSize) == Pow2(Bits(bitSize))
  {
    Pow2Table();
  }

  /** The largest value of an unsigned integer of `bitSize` bits. */
  function MaxUint(bitSize: nat): nat
    requires ValidBitSize(bitSize)
  {
    2 * Half(bitSize) - 1
  }

  /** The range of a signed integer of `bitSize` bits. */
  function MinInt(bitSize: nat): int
    requires ValidBitSize(bitSize)
  {
    -(Half(bitSize) as int)
  }

  function MaxInt(bitSize: nat): int
    requires ValidBitSize(bitSize)
  {
    Half(bitSize) - 1
  }

  predicate IsDigit(c: char) {
    '0' <= c <= '9'
  }

  predicate AllDigits(s: string) {
    forall i :: 0 <= i < |s| ==> IsDigit(s[i])
  }

  function DigitVal(c: char): nat
    requires IsDigit(c)
  {
    c as int - '0' as int
  }

  function DigitChar(d: nat): (c: char)
    requires d < 10
    ensures IsDigit(c) && DigitVal(c) == d
  {
    ('0' as int + d) as char
  }

  /** The number the digits `s` denote when read after the value `n`. */
  function DigitsFrom(n: nat, s: string): (v: nat)
    requires AllDigits(s)
    ensures v >= n
    decreases |s|
  {
    if |s| == 0 then n else DigitsFrom(n * 10 + DigitVal(s[0]), s[1..])
  }

  lemma {:induction false} DigitsFromAppend(n: nat, a: string, b: string)
    requires AllDigits(a) && AllDigits(b)
    ensures AllDigits(a + b) && DigitsFrom(n, a + b) == DigitsFrom(DigitsFrom(n, a), b)
    decreases |a|
  {
    assert AllDigits(a + b) by {
      forall i | 0 <= i < |a + b| ensures IsDigit((a + b)[i]) {
        if i < |a| { assert (a + b)[i] == a[i]; } else { assert (a + b)[i] == b[i - |a|]; }
      }
    }
    if |a| > 0 {
      assert (a + b)[0] == a[0] && (a + b)[1..] == a[1..] + b;
      DigitsFromAppend(n * 10 + DigitVal(a[0]), a[1..], b);
    } else {
      assert a + b == b;
    }
  }

  /** strconv.FormatUint(n, 10): decimal digits without leading zeros. */
  function FormatNat(n: nat): (s: string)
    ensures |s| >= 1 && AllDigits(s)
    ensures s[0] == '0' ==> n == 0 && s == "0"
    decreases n
  {
    if n < 10 then [DigitChar(n)] else FormatNat(n / 10) + [DigitChar(n % 10)]
  }

  /** Reading back what FormatNat writes gives the number. */
  lemma {:induction false} FormatNatValue(n: nat)
    ensures DigitsFrom(0, FormatNat(n)) == n
    decreases n
  {
    if n >= 10 {
      FormatNatValue(n / 10);
      var d := [DigitChar(n % 10)];
      DigitsFromAppend(0, FormatNat(n / 10), d);
      assert d[1..] == [];
    }
  }

  /** strconv.FormatInt(n, 10). */
  function FormatInt(n: int): (s: string)
    ensures |s| >= 1
    ensures n >= 0 ==> s == FormatNat(n)
    ensures n < 0 ==> s == "-" + FormatNat(-n)
  {
    if n < 0 then "-" + FormatNat(-n) else FormatNat(n)
  }

  /** strconv.FormatBool. */
  function FormatBool(b: bool): string {
    if b then "true" else "false"
  }

  /**
   * The left-to-right scan of strconv.ParseUint from the value `n` read so
   * far: a non-digit is a syntax error, a value above `maxVal` a range
   * error reported at once, before the rest is looked at.
   */
  function ScanUint(s: string, n: nat, maxVal: nat): (r: (nat, NumError))
    requires n <= maxVal
    ensures r.1 == NoError <==> AllDigits(s) && DigitsFrom(n, s) <= maxVal
    ensures r.1 == NoError ==> r.0 == DigitsFrom(n, s)
    ensures r.1 == ErrRange ==> s != [] && r.0 == maxVal
    ensures r.1 == ErrSyntax ==> r.0 == 0 && !AllDigits(s)
    decreases |s|
  {
    if |s| == 0 then (n, NoError)
    else if !IsDigit(s[0]) then (0, ErrSyntax)
    else if n * 10 + DigitVal(s[0]) > maxVal then
      assert AllDigits(s) ==> DigitsFrom(n, s) == DigitsFrom(n * 10 + DigitVal(s[0]), s[1..]);
      (maxVal, ErrRange)
    else ScanUint(s[1..], n * 10 + DigitVal(s[0]), maxVal)
  }

  /** strconv.ParseUint(s, 10, bitSize). */
  function ParseUint(s: string, bitSize: nat): (r: (nat, NumError))
    requires ValidBitSize(bitSize)
    ensures r.1 == NoError <==> s != "" && AllDigits(s) && DigitsFrom(0, s) <= MaxUint(bitSize)
    ensures r.1 == NoError ==> r.0 == DigitsFrom(0, s)
    ensures r.1 == ErrRange ==> s != [] && r.0 == MaxUint(bitSize)
    ensures r.1 == ErrSyntax ==> r.0 == 0 && (s == "" || !AllDigits(s))
  {
    if s == "" then (0, ErrSyntax) else ScanUint(s, 0, MaxUint(bitSize))
  }

  /** An optional sign followed by at least one decimal digit. */
  predicate IsDecimal(s: string) {
    |s| > 0 && var body := if s[0] == '+' || s[0] == '-' then s[1..] else s;
    body != "" && AllDigits(body)
  }

  /** The value of a decimal string. */
  function DecimalValue(s: string): int
    requires IsDecimal(s)
  {
    if s[0] == '-' then -(DigitsFrom(0, s[1..]) as int)
    else if s[0] == '+' then DigitsFrom(0, s[1..])
    else DigitsFrom(0, s)
  }

  /**
   * strconv.ParseInt(s, 10, bitSize): a sign, then ParseUint of the rest; a
   * value outside the signed range is clamped to its nearer end.
   */
  function ParseInt(s: string, bitSize: nat): (r: (int, NumError))
    requires ValidBitSize(bitSize)
    ensures r.1 == NoError <==> IsDecimal(s) && MinInt(bitSize) <= DecimalValue(s) <= MaxInt(bitSize)
    ensures r.1 == NoError ==> r.0 == DecimalValue(s)
    ensures r.1 == ErrRange ==> s != [] && r.0 == (if s[0] == '-' then MinInt(bitSize) else MaxInt(bitSize))
    ensures r.1 == ErrSyntax ==> !IsDecimal(s) && r.0 == 0
  {
    if s == "" then (0, ErrSyntax)
    else
      var neg := s[0] == '-';
      var body := if s[0] == '+' || s[0] == '-' then s[1..] else s;
      var u := ParseUint(body, bitSize);
      if u.1 == ErrSyntax then (0, ErrSyntax)
      else
        var cutoff: int := Half(bitSize);
        if !neg && u.0 >= cutoff then (cutoff - 1, ErrRange)
        else if neg && u.0 > cutoff then (-cutoff, ErrRange)
        else (if neg then -(u.0 as int) else u.0, NoError)
  }

  /** strconv.ParseBool. */
  function ParseBool(s: string): (r: (bool, NumError))
    ensures r.1 == NoError <==> s in {"1", "t", "T", "TRUE", "true", "True", "0", "f", "F", "FALSE", "false", "False"}
    ensures r.1 != ErrRange
    ensures r.0 <==> s in {"1", "t", "T", "TRUE", "true", "True"}
  {
    if s in {"1", "t", "T", "TRUE", "true", "True"} then (true, NoError)
    else if s in {"0", "f", "F", "FALSE", "false", "False"} then (false, NoError)
    else (false, ErrSyntax)
  }

  /** ParseUint reads back what FormatNat writes, within range. */
  lemma ParseFormatUint(n: nat, bitSize: nat)
    requires ValidBitSize(bitSize) && n <= MaxUint(bitSize)
    ensures ParseUint(FormatNat(n), bitSize) == (n, NoError)
  {
    FormatNatValue(n);
  }

  /** ParseInt reads back what FormatInt writes, within range. */
  lemma ParseFormatInt(n: int, bitSize: nat)
    requires ValidBitSize(bitSize) && MinInt(bitSize) <= n <= MaxInt(bitSize)
    ensures ParseInt(FormatInt(n), bitSize) == (n, NoError)
  {
    var s := FormatInt(n);
    if n < 0 {
      FormatNatValue(-n);
      assert s[0] == '-' && s[1..] == FormatNat(-n);
    } else {
      FormatNatValue(n);
    }
  }

  /** ParseBool reads back what FormatBool writes. */
  lemma ParseFormatBool(b: bool)
    ensures ParseBool(FormatBool(b)) == (b, NoError)
  {
  }

  /** `sep` occurs in `s` at position `j`. */
  predicate OccursAt(s: string, sep: string, j: int) {
    0 <= j <= |s| - |sep| && s[j..j + |sep|] == sep
  }

  /** strings.Index: the first position of `sep` in `s`, or -1. */
  function Index(s: string, sep: string): (i: int)
    ensures i == -1 || OccursAt(s, sep, i)
    ensures forall j :: 0 <= j && (j < i || i < 0) ==> !OccursAt(s, sep, j)
    decreases |s|
  {
    if |s| < |sep| then -1
    else if s[..|sep|] == sep then 0
    else
      var j := Index(s[1..], sep);
      assert forall k :: 1 <= k ==> (OccursAt(s, sep, k) <==> OccursAt(s[1..], sep, k - 1)) by {
        forall k | 1 <= k ensures OccursAt(s, sep, k) <==> OccursAt(s[1..], sep, k - 1) {
          if 0 <= k - 1 <= |s| - 1 - |sep| {
            assert s[1..][k - 1..k - 1 + |sep|] == s[k..k + |sep|];
          }
        }
      }
      if j < 0 then -1 else j + 1
  }

  /**
   * strings.Split: with a non-empty separator, the pieces between its
   * successive leftmost occurrences ([""] for ""); with an empty one each
   * character alone.
   */
  function Split(s: string, sep: string): (r: seq<string>)
    ensures sep != [] ==> |r| >= 1
    decreases |s|
  {
    if sep == [] then
      if |s| == 0 then [] else [s[..1]] + Split(s[1..], sep)
    else
      var i := Index(s, sep);
      if i < 0 then [s] else [s[..i]] + Split(s[i + |sep|..], sep)
  }

  /** strings.Join. */
  function Join(xs: seq<string>, sep: string): string {
    if |xs| == 0 then "" else if |xs| == 1 then xs[0] else xs[0] + sep + Join(xs[1..], sep)
  }

  /** Joining the pieces back with the separator gives the string split. */
  lemma JoinSplit(s: string, sep: string)
    ensures Join(Split(s, sep), sep) == s
  {
    if sep == [] { JoinExplode(s); } else { JoinSplitOn(s, sep); }
  }

  lemma {:induction false} JoinExplode(s: string)
    ensures Join(Split(s, []), []) == s
    decreases |s|
  {
    if |s| > 0 {
      JoinExplode(s[1..]);
      var rest := Split(s[1..], []);
      var xs := [s[..1]] + rest;
      assert Split(s, []) == xs;
      if |rest| == 0 {
        assert s[1..] == [];
        assert Join(xs, []) == s[..1];
      } else {
        assert xs[1..] == rest;
        assert Join(xs, []) == s[..1] + Join(rest, []);
      }
      assert s == s[..1] + s[1..];
    }
  }

  lemma {:induction false} JoinSplitOn(s: string, sep: string)
    requires sep != []
    ensures Join(Split(s, sep), sep) == s
    decreases |s|
  {
    if Index(s, sep) >= 0 {
      var i := SplitAt(s, sep);
      var rest := s[i + |sep|..];
      JoinSplitOn(rest, sep);
      JoinCons(s[..i], Split(rest, sep), sep);
    }
  }

  /** Where the separator occurs, Split cuts the first piece off before it. */
  lemma SplitAt(s: string, sep: string) returns (i: nat)
    requires sep != [] && Index(s, sep) >= 0
    ensures i == Index(s, sep) && i + |sep| <= |s|
    ensures Split(s, sep) == [s[..i]] + Split(s[i + |sep|..], sep)
    ensures s == s[..i] + sep + s[i + |sep|..]
  {
    i := Index(s, sep);
    assert s[i..i + |sep|] == sep;
    assert s == s[..i] + s[i..i + |sep|] + s[i + |sep|..];
  }

  /** Join of a piece in front of one or more pieces. */
  lemma JoinCons(x: string, pieces: seq<string>, sep: string)
    requires |pieces| >= 1
    ensures Join([x] + pieces, sep) == x + sep + Join(pieces, sep)
  {
    assert ([x] + pieces)[1..] == pieces;
  }

  predicate NoChar(x: string, c: char) {
    forall i :: 0 <= i < |x| ==> x[i] != c
  }

  /** Splitting on a one-character separator undoes joining pieces free of it. */
  lemma {:induction false} SplitJoin(xs: seq<string>, c: char)
    requires |xs| >= 1 && forall k :: 0 <= k < |xs| ==> NoChar(xs[k], c)
    ensures Split(Join(xs, [c]), [c]) == xs
    decreases |xs|
  {
    var j := Join(xs, [c]);
    if |xs| == 1 {
      NoIndex(xs[0], c);
    } else {
      var rest := Join(xs[1..], [c]);
      assert j == xs[0] + [c] + rest;
      FirstIndexAt(xs[0], c, rest);
      assert j[..|xs[0]|] == xs[0];
      assert j[|xs[0]| + 1..] == rest;
      SplitJoin(xs[1..], c);
      assert xs == [xs[0]] + xs[1..];
    }
  }

  lemma NoIndex(x: string, c: char)
    requires NoChar(x, c)
    ensures Index(x, [c]) == -1
  {
    var i := Index(x, [c]);
    if i >= 0 {
      OccursOne(x, c, i);
    }
  }

  lemma FirstIndexAt(x: string, c: char, rest: string)
    requires NoChar(x, c)
    ensures Index(x + [c] + rest, [c]) == |x|
  {
    var s := x + [c] + rest;
    OccursOne(s, c, |x|);
    forall j | 0 <= j < |x| ensures !OccursAt(s, [c], j) {
      OccursOne(s, c, j);
    }
  }

  /** A one-character separator occurs exactly where that character is. */
  lemma OccursOne(s: string, c: char, j: int)
    ensures OccursAt(s, [c], j) <==> 0 <= j < |s| && s[j] == c
  {
    if 0 <= j < |s| {
      assert s[j..j + 1] == [s[j]];
    }
  }

  /** unicode.IsSpace on ASCII. */
  predicate IsSpace(c: char) {
    c == ' ' || c == '\t' || c == '\n' || c == '\r' || c == '\U{000B}' || c == '\U{000C}'
  }

  /** `r` is `s` from `i` on, with only white space cut off around it. */
  ghost predicate TrimmedAt(s: string, r: string, i: int) {
    0 <= i <= |s| - |r| && r == s[i..i + |r|] &&
    forall k :: 0 <= k < i || i + |r| <= k < |s| ==> IsSpace(s[k])
  }

  function TrimLeft(s: string): (r: string)
    ensures |r| <= |s| && r == s[|s| - |r|..]
    ensures |r| > 0 ==> !IsSpace(r[0])
    ensures forall i :: 0 <= i < |s| - |r| ==> IsSpace(s[i])
    decreases |s|
  {
    if |s| > 0 && IsSpace(s[0]) then TrimLeft(s[1..]) else s
  }

  function TrimRight(s: string): (r: string)
    ensures |r| <= |s| && r == s[..|r|]
    ensures |r| > 0 ==> !IsSpace(r[|r| - 1])
    ensures forall i :: |r| <= i < |s| ==> IsSpace(s[i])
    decreases |s|
  {
    if |s| > 0 && IsSpace(s[|s| - 1]) then TrimRight(s[..|s| - 1]) else s
  }

  /**
   * strings.TrimSpace: `s` without its leading and trailing white space;
   * the result is a slice of `s` that neither starts nor ends with space,
   * and only space is cut off.
   */
  function TrimSpace(s: string): (r: string)
    ensures exists i :: TrimmedAt(s, r, i)
    ensures |r| > 0 ==> !IsSpace(r[0]) && !IsSpace(r[|r| - 1])
  {
    TrimBoth(s);
    TrimRight(TrimLeft(s))
  }

  /** Trimming the left and then the right cuts only white space off each end. */
  lemma TrimBoth(s: string)
    ensures TrimmedAt(s, TrimRight(TrimLeft(s)), |s| - |TrimLeft(s)|)
  {
    TrimmedFrom(s, TrimLeft(s), TrimRight(TrimLeft(s)));
  }

  lemma TrimmedFrom(s: string, l: string, r: string)
    requires |l| <= |s| && l == s[|s| - |l|..]
    requires forall k :: 0 <= k < |s| - |l| ==> IsSpace(s[k])
    requires |r| <= |l| && r == l[..|r|]
    requires forall k :: |r| <= k < |l| ==> IsSpace(l[k])
    ensures TrimmedAt(s, r, |s| - |l|)
  {
    var i := |s| - |l|;
    assert r == s[i..i + |r|];
    forall k | 0 <= k < i || i + |r| <= k < |s|
      ensures IsSpace(s[k])
    {
      if k >= i {
        assert s[k] == l[k - i];
      }
    }
  }

  /** A string with no white space at either end is left alone by TrimSpace. */
  lemma TrimSpaceKeeps(s: string)
    requires |s| > 0 ==> !IsSpace(s[0]) && !IsSpace(s[|s| - 1])
    ensures TrimSpace(s) == s
  {
  }

  /** TrimSpace drops white space put in front. */
  lemma {:induction false} TrimSpaceFront(pad: string, s: string)
    requires forall k :: 0 <= k < |pad| ==> IsSpace(pad[k])
    ensures TrimSpace(pad + s) == TrimSpace(s)
    decreases |pad|
  {
    if |pad| > 0 {
      assert (pad + s)[0] == pad[0] && (pad + s)[1..] == pad[1..] + s;
      TrimSpaceFront(pad[1..], s);
    } else {
      assert pad + s == s;
    }
  }
}
