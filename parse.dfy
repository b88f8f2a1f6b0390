/**
 * parse.go: classifying one argument, disambiguating a cluster of short
 * flags, and the parse loop that shifts arguments off the input and
 * pushes operands to the output.
 *
 * The loop is modelled step by step on the flag-set record `St`, whose
 * `input` and `output` are the two deques. A run that Failf or a panic
 * halted is left as it is: nothing after the halt happens. The methods
 * of the class FlagSets.FlagSet run the same loop on the object's fields
 * and are proved to reach the states these functions compute.
 */
module Parsing {
  import opened Wrappers
  import opened Runes
  import opened GoText
  import opened Types
  import opened Flags
  import opened FlagState
  import opened SetOps

  // ---------------------------------------------------------------------
  // ArgMask

  /** What parseSingleArg learns of an argument (an int8 of bits). */
  type ArgMask = bv8

  const AMClear: ArgMask := 0x00
  const AMFlagBit: ArgMask := 0x01
  const AMLongBit: ArgMask := 0x02
  const AMClusterBit: ArgMask := 0x04
  const AMParamBit: ArgMask := 0x08
  const AMHyphenBit: ArgMask := 0x10
  const AMNumberBit: ArgMask := 0x20

  predicate TstFlagBit(am: ArgMask) { am & AMFlagBit != 0 }
  predicate TstLongBit(am: ArgMask) { am & AMLongBit != 0 }
  predicate TstClusterBit(am: ArgMask) { am & AMClusterBit != 0 }
  predicate TstParamBit(am: ArgMask) { am & AMParamBit != 0 }
  predicate TstHyphenBit(am: ArgMask) { am & AMHyphenBit != 0 }
  predicate TstNumberBit(am: ArgMask) { am & AMNumberBit != 0 }

  /**
   * The combinations the sanity checks of the mask predicates allow: a
   * flag is not just hyphens and not a long cluster, a parameter belongs
   * to a flag that is not just hyphens, and a non-flag is neither a
   * cluster nor has a parameter.
   */
  predicate Sane(am: ArgMask) {
    (TstFlagBit(am) ==> !TstHyphenBit(am) && !(TstLongBit(am) && TstClusterBit(am))) &&
    (TstParamBit(am) ==> TstFlagBit(am) && !TstHyphenBit(am)) &&
    (!TstFlagBit(am) ==> !TstClusterBit(am) && !TstParamBit(am))
  }

  /** IsFlag: the flag bit, after the check that a flag is not just hyphens. */
  function IsFlagArg(am: ArgMask): (c: Checked<bool>)
    ensures Sane(am) ==> c == Ok(TstFlagBit(am))
  {
    if TstFlagBit(am) then
      if TstHyphenBit(am) then Panic("flag purports to be just hyphens") else Ok(true)
    else Ok(false)
  }

  /** IsDoubleHyphen: nothing but "--". */
  predicate IsDoubleHyphenArg(am: ArgMask) {
    TstHyphenBit(am) && TstLongBit(am)
  }

  /** IsShortFlag: a flag that is neither long nor a cluster. */
  function IsShortFlagArg(am: ArgMask): (c: Checked<bool>)
    ensures Sane(am) ==> c == Ok(TstFlagBit(am) && !TstLongBit(am) && !TstClusterBit(am))
  {
    match IsFlagArg(am)
    case Panic(why) => Panic(why)
    case Ok(b) => Ok(b && !TstLongBit(am) && !TstClusterBit(am))
  }

  /** IsLongFlag: a long flag, after the check that it is no cluster. */
  function IsLongFlagArg(am: ArgMask): (c: Checked<bool>)
    ensures Sane(am) ==> c == Ok(TstFlagBit(am) && TstLongBit(am))
  {
    match IsFlagArg(am)
    case Panic(why) => Panic(why)
    case Ok(b) =>
      if b && TstLongBit(am) then
        if TstClusterBit(am) then Panic("fatal: purported cluster of long flags") else Ok(true)
      else Ok(false)
  }

  /** IsCluster: a cluster of short flags, after the check that it is not long. */
  function IsClusterArg(am: ArgMask): (c: Checked<bool>)
    ensures Sane(am) ==> c == Ok(TstFlagBit(am) && TstClusterBit(am))
  {
    match IsFlagArg(am)
    case Panic(why) => Panic(why)
    case Ok(b) =>
      if b && TstClusterBit(am) then
        if TstLongBit(am) then Panic("fatal: purported cluster of long flags") else Ok(true)
      else Ok(false)
  }

  /** HasParam: the parameter bit, after the checks that it belongs to a real flag. */
  function HasParamArg(am: ArgMask): (c: Checked<bool>)
    ensures Sane(am) ==> c == Ok(TstParamBit(am))
  {
    if TstParamBit(am) then
      if !TstFlagBit(am) then Panic("fatal: purported non-flag with parameter")
      else if TstHyphenBit(am) then Panic("fatal: purported hyphens with parameter")
      else Ok(true)
    else Ok(false)
  }

  /** IsNonFlag: not a flag, after the checks that it is no cluster and has no parameter. */
  function IsNonFlagArg(am: ArgMask): (c: Checked<bool>)
    ensures Sane(am) ==> c == Ok(!TstFlagBit(am))
  {
    match IsFlagArg(am)
    case Panic(why) => Panic(why)
    case Ok(b) =>
      if !b then
        if TstClusterBit(am) then Panic("fatal: purported non-flag cluster")
        else if TstParamBit(am) then Panic("fatal: purported non-flag with parameter")
        else Ok(true)
      else Ok(false)
  }

  /** The sanity checks pass, for every mask predicate, exactly on the sane masks. */
  lemma SaneExactly(am: ArgMask)
    ensures Sane(am) <==>
      IsFlagArg(am).Ok? && IsShortFlagArg(am).Ok? && IsLongFlagArg(am).Ok? &&
      IsClusterArg(am).Ok? && HasParamArg(am).Ok? && IsNonFlagArg(am).Ok?
  {
  }

  // ---------------------------------------------------------------------
  // parseSingleArg

  /** What parseSingleArg returns: the flag name or cluster, the parameter, the mask. */
  datatype Parsed = Parsed(flags: string, param: string, mask: ArgMask)

  /**
   * parseSingleArg: "-" and anything shorter than two bytes is an operand
   * (with the hyphen bit for "-"), "--" is a long run of hyphens with the
   * parameter "--", and an argument without a leading hyphen is an
   * operand. Anything else is a flag.
   */
  function ParseSingleArg(arg: string): (p: Parsed)
    ensures Sane(p.mask)
    ensures TstFlagBit(p.mask) <==> |arg| >= 2 && arg[0] == '-' && arg != "--"
    ensures !TstFlagBit(p.mask) ==> p.flags == "" && p.param == arg
  {
    OperandMasks();
    if |arg| < 2 then Parsed("", arg, if arg == "-" then AMHyphenBit else AMClear)
    else if arg[0] == '-' then HyphenArg(arg)
    else Parsed("", arg, AMClear)
  }

  /** parseSingleArg of an argument of two or more bytes with a leading hyphen. */
  function HyphenArg(arg: string): (p: Parsed)
    requires |arg| >= 2 && arg[0] == '-'
    ensures Sane(p.mask)
    ensures TstFlagBit(p.mask) <==> arg != "--"
    ensures !TstFlagBit(p.mask) ==> p == Parsed("", "--", AMLongBit | AMHyphenBit)
  {
    OperandMasks();
    if arg[..2] == "--" then
      if |arg| == 2 then
        assert arg == arg[..2];
        Parsed("", "--", AMLongBit | AMHyphenBit)
      else FlagArg(arg[2..], AMLongBit)
    else
      assert arg[..2] == [arg[0], arg[1]];
      FlagArg(arg[1..], AMClear)
  }

  /** The masks of the three kinds of operand are sane and carry no flag bit. */
  lemma OperandMasks()
    ensures Sane(AMClear) && !TstFlagBit(AMClear)
    ensures Sane(AMHyphenBit) && !TstFlagBit(AMHyphenBit)
    ensures Sane(AMLongBit | AMHyphenBit) && !TstFlagBit(AMLongBit | AMHyphenBit)
  {
  }

  /**
   * parseSingleArg once the hyphens are stripped from a non-empty `flag`:
   * the first "=" splits off the parameter; a long flag is its name; a
   * single rune is a short, a number when it is a digit; a longer run is
   * a cluster, and a number too when there is no parameter and it parses
   * as a uint64.
   */
  function FlagArg(body: string, am: ArgMask): (p: Parsed)
    requires am == AMClear || am == AMLongBit
    ensures Sane(p.mask) && TstFlagBit(p.mask)
    ensures TstLongBit(p.mask) <==> am == AMLongBit
  {
    var am1 := am | AMFlagBit;
    var i := Index(body, "=");
    var am2 := if i >= 0 then am1 | AMParamBit else am1;
    var flag := if i >= 0 then body[..i] else body;
    var param := if i >= 0 then body[i + 1..] else "";
    if TstLongBit(am2) then Parsed(flag, param, am2)
    else
      var (r, tail) := FirstRune(flag);
      if tail == "" then Parsed(RuneString(r), param, if IsNumberRune(r) then am2 | AMNumberBit else am2)
      else
        var am3 := if param == "" && ParseUint(flag, 64).1 == NoError then am2 | AMNumberBit else am2;
        Parsed(flag, param, am3 | AMClusterBit)
  }

  /** The three kinds of operand: "-", "--" and an argument without a leading hyphen. */
  lemma OperandShapes(arg: string)
    ensures arg == "-" ==> ParseSingleArg(arg) == Parsed("", "-", AMHyphenBit)
    ensures arg == "--" ==> ParseSingleArg(arg) == Parsed("", "--", AMLongBit | AMHyphenBit)
    ensures arg == "--" ==> IsDoubleHyphenArg(ParseSingleArg(arg).mask) && !TstFlagBit(ParseSingleArg(arg).mask)
    ensures arg == "" || arg[0] != '-' ==> ParseSingleArg(arg) == Parsed("", arg, AMClear)
  {
  }

  /** The part of a flag argument after its hyphens. */
  function Body(arg: string): (b: string)
    requires |arg| >= 2
    ensures |b| < |arg|
  {
    if arg[..2] == "--" then arg[2..] else arg[1..]
  }

  /** The first "=" splits a body: nothing before it is "=", and without one there is none. */
  lemma EqualsAt(b: string)
    ensures var i := Index(b, "=");
      (i >= 0 ==> i < |b| && b[i] == '=' && NoChar(b[..i], '=')) && (i < 0 ==> NoChar(b, '='))
  {
    var i := Index(b, "=");
    if i >= 0 {
      OccursOne(b, '=', i);
      forall j | 0 <= j < i ensures b[..i][j] != '=' {
        OccursOne(b, '=', j);
      }
    } else {
      forall j | 0 <= j < |b| ensures b[j] != '=' {
        OccursOne(b, '=', j);
      }
    }
  }

  /** FlagArg: the parameter bit and the parameter come from the first "=". */
  lemma FlagArgParam(body: string, am: ArgMask)
    requires am == AMClear || am == AMLongBit
    ensures var p := FlagArg(body, am); var i := Index(body, "=");
      (TstParamBit(p.mask) <==> i >= 0) &&
      p.param == (if i >= 0 then body[i + 1..] else "") &&
      (am == AMLongBit ==> p.flags == if i >= 0 then body[..i] else body)
  {
    ParamBits(am | AMFlagBit);
    ParamBits(am | AMFlagBit | AMParamBit);
  }

  /** Setting the number or the cluster bit leaves the parameter bit as it was. */
  lemma ParamBits(am: ArgMask)
    ensures TstParamBit(am | AMNumberBit) == TstParamBit(am)
    ensures TstParamBit(am | AMClusterBit) == TstParamBit(am)
    ensures TstParamBit(am | AMNumberBit | AMClusterBit) == TstParamBit(am)
    ensures TstParamBit(am | AMParamBit)
  {
  }

  /**
   * The first "=" of a flag argument splits off its parameter: the bit is
   * set exactly when there is one, the parameter is what follows it, and
   * a long flag's name is what precedes it.
   */
  lemma ParamSplit(arg: string)
    requires |arg| >= 2 && arg[0] == '-' && arg != "--"
    ensures var p := ParseSingleArg(arg); var i := Index(Body(arg), "=");
      (TstParamBit(p.mask) <==> i >= 0) &&
      (i >= 0 ==> p.param == Body(arg)[i + 1..] && NoChar(Body(arg)[..i], '=')) &&
      (i < 0 ==> p.param == "" && NoChar(Body(arg), '=')) &&
      (TstLongBit(p.mask) ==> p.flags == if i >= 0 then Body(arg)[..i] else Body(arg))
  {
    EqualsAt(Body(arg));
    FlagArgParam(Body(arg), if arg[..2] == "--" then AMLongBit else AMClear);
  }

  /** FlagArg of a short body: one rune is a short, longer runs are clusters. */
  lemma FlagArgShort(body: string)
    ensures var p := FlagArg(body, AMClear); var i := Index(body, "=");
      var flag := if i >= 0 then body[..i] else body;
      (|flag| == 1 ==> !TstClusterBit(p.mask) && p.flags == flag && (TstNumberBit(p.mask) <==> Runes.IsNumber(flag[0]))) &&
      (|flag| >= 2 ==>
        TstClusterBit(p.mask) && p.flags == flag &&
        (TstNumberBit(p.mask) <==> p.param == "" && ParseUint(flag, 64).1 == NoError))
  {
    var i := Index(body, "=");
    var flag := if i >= 0 then body[..i] else body;
    if |flag| == 1 {
      assert RuneString(RuneOf(flag[0])) == flag;
    }
  }

  /**
   * The -NUM idiom: after a single hyphen, one rune before any "=" is a
   * short flag, a number exactly when it is a digit; a longer run is a
   * cluster, a number exactly when there is no parameter and it is a
   * uint64 in decimal.
   */
  lemma NumberBits(arg: string)
    requires |arg| >= 2 && arg[0] == '-' && arg[1] != '-'
    ensures var p := ParseSingleArg(arg); var i := Index(arg[1..], "=");
      var flag := if i >= 0 then arg[1..][..i] else arg[1..];
      (|flag| == 1 ==> !TstClusterBit(p.mask) && p.flags == flag && (TstNumberBit(p.mask) <==> Runes.IsNumber(flag[0]))) &&
      (|flag| >= 2 ==>
        TstClusterBit(p.mask) && p.flags == flag &&
        (TstNumberBit(p.mask) <==> p.param == "" && AllDigits(flag) && DigitsFrom(0, flag) <= MaxUint(64)))
  {
    assert arg[..2] != "--";
    FlagArgShort(arg[1..]);
  }

  // ---------------------------------------------------------------------
  // Set during parsing

  /** What Set leaves of the flag set that the parse loop looks at. */
  predicate SameLookups(r: St, s: St) {
    |r.flags| == |s.flags| && r.shortDict == s.shortDict && r.hasHyphenNumIdiom == s.hasHyphenNumIdiom &&
    r.longTrie == s.longTrie && r.input == s.input && r.output == s.output
  }

  /**
   * Set (`doSet`) or Test of a flag at an argument position, as the parse
   * loop calls it: the flag set afterwards and the error returned.
   */
  type Setter = (St, nat, Value, bool, int) --> (St, Option<SetError>)

  /**
   * A Setter defined on every flag of a sound flag set that keeps it
   * sound, and keeps its lookups, its deques and its arena's size.
   */
  ghost predicate SetterOk(tos: Setter) {
    forall s: St, h: nat, v: Value, d: bool, p: int :: StOk(s) && h < |s.flags| && Wf(v) ==>
      tos.requires(s, h, v, d, p) && StOk(tos(s, h, v, d, p).0) && SameLookups(tos(s, h, v, d, p).0, s)
  }

  /** Flag.Set and Flag.Test of a flag set in its environment: testOrSet. */
  function SetOf(env: Env): Setter {
    (s: St, h: nat, v: Value, d: bool, p: int) requires ArenaOk(s.flags) && h < |s.flags| && Wf(v) =>
      TestOrSetOf(env, s, h, v, d, p)
  }

  /** testOrSet is a Setter of that kind. */
  lemma SetOfOk(env: Env)
    ensures SetterOk(SetOf(env))
  {
    forall s: St, h: nat, v: Value, d: bool, p: int | StOk(s) && h < |s.flags| && Wf(v)
      ensures StOk(SetOf(env)(s, h, v, d, p).0) && SameLookups(SetOf(env)(s, h, v, d, p).0, s)
    {
      SetKeepsOk(env, s, h, v, d, p);
    }
  }

  /** Set of flag `h` with a value; a refusal goes to Failf with `msg`. A halted run is left as it is. */
  function SetOrFailOf(tos: Setter, s: St, h: nat, value: Value, pos: int, msg: string): (r: St)
    requires SetterOk(tos) && StOk(s) && h < |s.flags| && Wf(value)
    ensures StOk(r) && SameLookups(r, s)
    ensures s.halt.Some? ==> r == s
  {
    if s.halt.Some? then s
    else
      var c := tos(s, h, value, true, pos);
      FailKeepsOk(c.0);
      if c.1.Some? then FailfOf(c.0, msg) else c.0
  }

  /** The text of an argument, as Set receives it. */
  lemma TextWf(x: string)
    ensures Wf(Text(x))
  {
  }

  // ---------------------------------------------------------------------
  // disambiguateCluster

  /** The short flag a character of a cluster names, if any. */
  function ShortOf(s: St, c: char): (f: Option<nat>)
    ensures f == LookupShortOf(s, RuneOf(c))
    ensures StOk(s) && f.Some? ==> f.value < |s.flags|
  {
    ShortInArena(s, RuneOf(c));
    LookupShortOf(s, RuneOf(c))
  }

  /** The -NUM flag, if one is registered. */
  function NumFlagOf(s: St): (f: Option<nat>)
    ensures f == LookupShortOf(s, NoShort)
    ensures StOk(s) && f.Some? ==> f.value < |s.flags|
  {
    ShortInArena(s, NoShort);
    LookupShortOf(s, NoShort)
  }

  lemma ShortInArena(s: St, r: Rune)
    ensures StOk(s) && LookupShortOf(s, r).Some? ==> LookupShortOf(s, r).value < |s.flags|
  {
    if StOk(s) {
      LookupInArena(s, ShortItem(r));
    }
  }

  /** The option-argument a cluster leaves from position `i` on: the rest, and "=" and the parameter if any. */
  function OptArg(flags: string, i: nat, param: string): (o: string)
    requires i <= |flags|
    ensures param == "" ==> o == flags[i..]
    ensures param != "" ==> o == flags[i..] + "=" + param
  {
    if param != "" then flags[i..] + "=" + param else flags[i..]
  }

  /** The position of the first character of a cluster, from `i` on, that names no short flag. */
  function KnownUpTo(s: St, flags: string, i: nat): (k: nat)
    requires i <= |flags|
    ensures i <= k <= |flags|
    ensures k < |flags| ==> ShortOf(s, flags[k]).None?
    decreases |flags| - i
  {
    if i == |flags| || ShortOf(s, flags[i]).None? then i else KnownUpTo(s, flags, i + 1)
  }

  /** Every character before that position names a flag. */
  lemma {:induction false} KnownBefore(s: St, flags: string, i: nat, j: nat)
    requires i <= |flags| && i <= j < KnownUpTo(s, flags, i)
    ensures ShortOf(s, flags[j]).Some?
    decreases j - i
  {
    if i < j {
      KnownBefore(s, flags, i + 1, j);
    }
  }

  /** From any position up to it, the first character that names no flag is the same. */
  lemma {:induction false} KnownFrom(s: St, flags: string, j: nat, i: nat)
    requires i <= |flags| && j <= i <= KnownUpTo(s, flags, j)
    ensures KnownUpTo(s, flags, i) == KnownUpTo(s, flags, j)
    decreases i - j
  {
    if j < i {
      KnownFrom(s, flags, j + 1, i);
    }
  }

  /**
   * The walk over a cluster at position `i`, all characters before it
   * naming flags: a character that names a flag moves the end one
   * further, and one that names none is the end.
   */
  lemma KnownStep(s: St, flags: string, i: nat)
    requires i < |flags| && i <= KnownUpTo(s, flags, 0)
    ensures ShortOf(s, flags[i]).Some? ==> i + 1 <= KnownUpTo(s, flags, 0)
    ensures ShortOf(s, flags[i]).None? ==> KnownUpTo(s, flags, 0) == i
  {
    KnownFrom(s, flags, 0, i);
  }

  /**
   * The Sets with nil, in order, of the flags that the first `n`
   * characters of a cluster name (each is looked up in the flag set the
   * cluster started from, whose shorts Set does not change).
   */
  function NilSets(tos: Setter, s0: St, flags: string, n: nat, pos: int): (r: St)
    requires SetterOk(tos) && StOk(s0) && n <= KnownUpTo(s0, flags, 0)
    ensures StOk(r) && SameLookups(r, s0)
    ensures s0.halt.Some? ==> r == s0
    decreases n
  {
    if n == 0 then s0
    else
      var m := NilSets(tos, s0, flags, n - 1, pos);
      KnownBefore(s0, flags, 0, n - 1);
      SetOrFailOf(tos, m, ShortOf(s0, flags[n - 1]).value, Nil, pos, "failed to set with nil")
  }

  /**
   * disambiguateCluster: the characters are looked up from the left, and
   * each flag found is set with nil once the next character names a flag
   * too. With `k` characters naming flags, the flags of the first `k - 1`
   * are set with nil in order; then, when every character names a flag,
   * the last flag is returned for an option-argument in the next
   * argument. Otherwise, under the -NUM idiom the whole cluster goes to
   * the -NUM flag; failing that the rest from `k` on, with "=" and the
   * parameter if any, is the option-argument of the flag before `k`, and
   * with no flag before `k` Set is called on nil and panics.
   */
  function ClusterOf(tos: Setter, s: St, flags: string, param: string, isNumber: bool, pos: int): (r: (St, Option<nat>))
    requires SetterOk(tos) && StOk(s)
    ensures StOk(r.0) && |r.0.flags| == |s.flags| && r.0.input == s.input && r.0.output == s.output
    ensures r.1.Some? ==> r.1.value < |r.0.flags| && r.0.halt.None?
  {
    var k := KnownUpTo(s, flags, 0);
    var m := NilSets(tos, s, flags, if k == 0 then 0 else k - 1, pos);
    TextWf(flags);
    TextWf(OptArg(flags, k, param));
    FailKeepsOk(m);
    var r :=
      if m.halt.Some? then (m, None)
      else if k == |flags| then (m, if k == 0 then None else ShortOf(s, flags[k - 1]))
      else (MissOf(tos, s, m, flags, k, param, isNumber, pos), None);
    r
  }

  /**
   * The character at `k` of a cluster started from `s` names no flag,
   * and the earlier Sets left `m`: under the -NUM idiom the whole cluster
   * goes to the -NUM flag; otherwise the rest is the option-argument of
   * the flag before `k`, and there is none before the first.
   */
  function MissOf(tos: Setter, s: St, m: St, flags: string, k: nat, param: string, isNumber: bool, pos: int): (r: St)
    requires SetterOk(tos) && StOk(s) && StOk(m) && SameLookups(m, s) && k < |flags| && k == KnownUpTo(s, flags, 0)
    ensures StOk(r) && |r.flags| == |s.flags| && r.input == s.input && r.output == s.output
  {
    TextWf(flags);
    TextWf(OptArg(flags, k, param));
    FailKeepsOk(m);
    var r :=
      if isNumber && param == "" && NumFlagOf(s).Some? then
        SetOrFailOf(tos, m, NumFlagOf(s).value, Text(flags), pos, "failed to set (-NUM idiom)")
      else if k == 0 then PanicOf(m, "nil pointer dereference")
      else (
        KnownBefore(s, flags, 0, k - 1);
        SetOrFailOf(tos, m, ShortOf(s, flags[k - 1]).value, Text(OptArg(flags, k, param)), pos, "failed to set"));
    r
  }

  /**
   * A cluster whose first character names no flag, outside the -NUM
   * idiom, sets nothing and panics on the nil flag.
   */
  lemma UnknownFirstPanics(tos: Setter, s: St, flags: string, param: string, isNumber: bool, pos: int)
    requires SetterOk(tos) && StOk(s) && s.halt.None? && |flags| > 0 && ShortOf(s, flags[0]).None?
    requires !(isNumber && param == "" && NumFlagOf(s).Some?)
    ensures ClusterOf(tos, s, flags, param, isNumber, pos) == (PanicOf(s, "nil pointer dereference"), None)
    ensures ClusterOf(tos, s, flags, param, isNumber, pos).0.halt == Some(Panicked("nil pointer dereference"))
  {
  }

  /**
   * A cluster whose characters all name flags sets all but the last with
   * nil and returns the last; one with a character that names no flag
   * returns none.
   */
  lemma ClusterReturnsLast(tos: Setter, s: St, flags: string, param: string, isNumber: bool, pos: int)
    requires SetterOk(tos) && StOk(s) && |flags| > 0
    ensures var r := ClusterOf(tos, s, flags, param, isNumber, pos);
      r.1.Some? <==> KnownUpTo(s, flags, 0) == |flags| && r.0.halt.None?
    ensures var r := ClusterOf(tos, s, flags, param, isNumber, pos);
      r.1.Some? ==> r == (NilSets(tos, s, flags, |flags| - 1, pos), ShortOf(s, flags[|flags| - 1]))
  {
    var k := KnownUpTo(s, flags, 0);
    if k == |flags| {
      KnownBefore(s, flags, 0, k - 1);
    }
  }

  // ---------------------------------------------------------------------
  // The parse loop

  /**
   * stopParsing: the input, without its first argument when `shift` is
   * set, goes to the end of the output, and the input is left empty.
   */
  function StopParsingOf(s: St, shift: bool): (r: St)
    ensures r.input == [] && r.output == s.output + (if shift && s.input != [] then s.input[1..] else s.input)
    ensures r == s.(input := [], output := r.output)
    ensures StOk(s) ==> StOk(r)
  {
    var rest := if shift && s.input != [] then s.input[1..] else s.input;
    s.(input := [], output := s.output + rest)
  }

  /** A Shift of the option-argument just taken off the input; a halted run is left as it is. */
  function ConsumeOf(s: St): (r: St)
    ensures s.halt.None? && s.input != [] ==> r == s.(input := s.input[1..])
    ensures s.halt.Some? || s.input == [] ==> r == s
    ensures StOk(s) ==> StOk(r)
  {
    if s.halt.Some? || s.input == [] then s else s.(input := s.input[1..])
  }

  /** What one pass of the parse loop leaves: the flag set, the argument position, and whether parse returned. */
  datatype Pass = Pass(s: St, pos: int, done: bool)

  /** An attached parameter of a short flag or a cluster, as opposed to a long flag. */
  predicate ShortOrCluster(am: ArgMask) {
    (TstFlagBit(am) && !TstLongBit(am) && !TstClusterBit(am)) || (TstFlagBit(am) && TstClusterBit(am))
  }

  /**
   * One pass of the parse loop, from shifting an argument off the input
   * at position `pos`: an operand is pushed to the output (and under
   * PosixOperandStop the rest of the input follows it and parse returns);
   * a cluster is disambiguated; anything else is looked up as a flag name,
   * an unknown name going to the -NUM flag when it is a number and to
   * Failf otherwise. A "--" is no flag, so it is pushed as an operand.
   */
  function StepOf(cfg: Config, tos: Setter, s: St, pos: int): (r: Pass)
    requires SetterOk(tos) && StOk(s) && s.halt.None? && s.input != []
    ensures StOk(r.s) && |r.s.flags| == |s.flags|
    ensures r.done ==> r.s.input == [] || r.s.halt.Some?
    ensures !r.done ==> |r.s.input| < |s.input|
  {
    ArgOf(cfg, tos, s.(input := s.input[1..]), ParseSingleArg(s.input[0]), pos + 1)
  }

  /** The pass on the argument at position `i`, classified as `p`, once it was shifted off the input. */
  function ArgOf(cfg: Config, tos: Setter, s0: St, p: Parsed, i: int): (r: Pass)
    requires SetterOk(tos) && StOk(s0) && s0.halt.None?
    ensures StOk(r.s) && |r.s.flags| == |s0.flags|
    ensures r.done ==> r.s.input == [] || r.s.halt.Some?
    ensures !r.done ==> |r.s.input| <= |s0.input|
  {
    var r :=
      if !TstFlagBit(p.mask) then
        var s1 := s0.(output := s0.output + [p.param]);
        if cfg.posixOperandStop then Pass(StopParsingOf(s1, false), i, true) else Pass(s1, i, false)
      else if TstClusterBit(p.mask) then
        var c := ClusterOf(tos, s0, p.flags, p.param, TstNumberBit(p.mask), i);
        if c.1.None? then Pass(c.0, i, false) else AfterFlagOf(cfg, tos, c.0, c.1.value, p.mask, p.param, i)
      else NamedOf(cfg, tos, s0, p, i);
    r
  }

  /**
   * A flag argument that is no cluster: its name is looked up (a long
   * name, or a one-rune short); an unknown name goes to the -NUM flag
   * when it is a number, and to Failf otherwise.
   */
  function NamedOf(cfg: Config, tos: Setter, s0: St, p: Parsed, i: int): (r: Pass)
    requires SetterOk(tos) && StOk(s0) && s0.halt.None?
    ensures StOk(r.s) && |r.s.flags| == |s0.flags|
    ensures r.done ==> r.s.input == [] || r.s.halt.Some?
    ensures !r.done ==> |r.s.input| <= |s0.input|
  {
    var f := LookupLongOf(s0, p.flags);
    LookupInArena(s0, LongItem(p.flags));
    if f.Some? then AfterFlagOf(cfg, tos, s0, f.value, p.mask, p.param, i)
    else Pass(UnknownOf(tos, s0, p, i), i, false)
  }

  /** A name that names no flag: a number goes to the -NUM flag, anything else to Failf. */
  function UnknownOf(tos: Setter, s0: St, p: Parsed, i: int): (r: St)
    requires SetterOk(tos) && StOk(s0) && s0.halt.None?
    ensures StOk(r) && |r.flags| == |s0.flags| && r.input == s0.input
  {
    FailKeepsOk(s0);
    TextWf(p.flags);
    var r :=
      if !TstNumberBit(p.mask) then FailfOf(s0, "flag not defined (NaN)")
      else if NumFlagOf(s0).None? then FailfOf(s0, "flag '-NUM' not defined")
      else SetOrFailOf(tos, s0, NumFlagOf(s0).value, Text(p.flags), i, "failed to set -NUM flag");
    r
  }

  /**
   * The pass after flag `h` was found in an argument with mask `am`: an
   * attached parameter is set (with its "=" under PosixEquals, for a
   * short flag or a cluster); at the end of the input the flag is set
   * with nil and parse returns; otherwise the next argument is peeked at.
   */
  function AfterFlagOf(cfg: Config, tos: Setter, s: St, h: nat, am: ArgMask, param: string, i: int): (r: Pass)
    requires SetterOk(tos) && StOk(s) && s.halt.None? && h < |s.flags|
    ensures StOk(r.s) && |r.s.flags| == |s.flags|
    ensures r.done ==> r.s.input == [] || r.s.halt.Some?
    ensures !r.done ==> |r.s.input| <= |s.input|
  {
    var r :=
      if TstParamBit(am) then
        var v := if ShortOrCluster(am) && cfg.posixEquals then "=" + param else param;
        TextWf(v);
        Pass(SetOrFailOf(tos, s, h, Text(v), i, "failed to set flag"), i, false)
      else if s.input == [] then Pass(SetOrFailOf(tos, s, h, Nil, i, "failed to set flag at EOL with no parameter"), i, true)
      else PeekOf(cfg, tos, s, h, ParseSingleArg(s.input[0]), i);
    r
  }

  /**
   * The next argument after flag `h`, peeked at and classified as `q`: a "--" ends parsing
   * under GNU rules and is dropped; under PosixDoubleHyphen it is the
   * flag's option-argument when Test accepts it, and ends parsing
   * otherwise. Another operand is Set on a flag that is not a bool, and
   * shifted off the input only when that Set succeeds. In every other
   * case the flag is set with nil.
   */
  function PeekOf(cfg: Config, tos: Setter, s: St, h: nat, q: Parsed, i: int): (r: Pass)
    requires SetterOk(tos) && StOk(s) && s.halt.None? && h < |s.flags| && s.input != []
    ensures StOk(r.s) && |r.s.flags| == |s.flags|
    ensures r.done ==> r.s.input == [] || r.s.halt.Some?
    ensures !r.done ==> |r.s.input| <= |s.input|
  {
    var r :=
      if !TstFlagBit(q.mask) && IsDoubleHyphenArg(q.mask) then PeekDashesOf(cfg, tos, s, h, i)
      else if !TstFlagBit(q.mask) && !IsBool(s.flags[h]) then
        TextWf(q.param);
        var t := tos(s, h, Text(q.param), true, i);
        if t.1.None? then Pass(ConsumeOf(t.0), i + 1, false) else Pass(t.0, i, false)
      else Pass(SetOrFailOf(tos, s, h, Nil, i, "failed to set flag with no parameter"), i, false);
    r
  }

  /**
   * A "--" peeked at after flag `h`: under GNU rules parsing ends and the
   * "--" is dropped; under PosixDoubleHyphen it is Set as the flag's
   * option-argument and shifted off when Test accepts it, and otherwise
   * parsing ends the same way.
   */
  function PeekDashesOf(cfg: Config, tos: Setter, s: St, h: nat, i: int): (r: Pass)
    requires SetterOk(tos) && StOk(s) && s.halt.None? && h < |s.flags|
    ensures StOk(r.s) && |r.s.flags| == |s.flags|
    ensures r.done ==> r.s.input == [] || r.s.halt.Some?
    ensures !r.done ==> |r.s.input| <= |s.input|
  {
    if !cfg.posixDoubleHyphen then Pass(StopParsingOf(s, true), i, true)
    else TestDashesOf(tos, s, h, i)
  }

  /** PosixDoubleHyphen: the "--" is Tested, and Set and shifted off when Test accepts it. */
  function TestDashesOf(tos: Setter, s: St, h: nat, i: int): (r: Pass)
    requires SetterOk(tos) && StOk(s) && s.halt.None? && h < |s.flags|
    ensures StOk(r.s) && |r.s.flags| == |s.flags|
    ensures r.done ==> r.s.input == [] || r.s.halt.Some?
    ensures !r.done ==> |r.s.input| <= |s.input|
  {
    TextWf("--");
    var t := tos(s, h, Text("--"), false, i);
    var r :=
      if t.0.halt.Some? then Pass(t.0, i, true)
      else if t.1.Some? then Pass(StopParsingOf(t.0, true), i, true)
      else
        var u := SetOrFailOf(tos, t.0, h, Text("--"), i, "failed to set flag with `--` after Test()");
        Pass(ConsumeOf(u), i + 1, false);
    r
  }

  /**
   * parse from argument position `pos`: passes of the loop until the
   * input is exhausted, a pass returns, or the run halts.
   */
  function ParseFrom(cfg: Config, tos: Setter, s: St, pos: int): (r: St)
    requires SetterOk(tos) && StOk(s)
    ensures StOk(r) && |r.flags| == |s.flags|
    ensures r.halt.Some? || r.input == []
    ensures s.halt.Some? ==> r == s
    decreases |s.input|
  {
    if s.halt.Some? || s.input == [] then s
    else
      var p := StepOf(cfg, tos, s, pos);
      if p.done then p.s else ParseFrom(cfg, tos, p.s, p.pos)
  }

  /** Parse: the arguments become the input, and parse runs from position 0. */
  function ParseOf(cfg: Config, tos: Setter, s: St, args: seq<string>): (r: St)
    requires SetterOk(tos) && StOk(s)
    ensures StOk(r) && |r.flags| == |s.flags|
    ensures r.halt.Some? || r.input == []
  {
    ParseFrom(cfg, tos, s.(input := args), 0)
  }
}
