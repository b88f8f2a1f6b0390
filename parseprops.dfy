/**
 * What the parse loop of parse.go does with operands, with "--", with an
 * attached "=" and with a detached option-argument, stated on the
 * step functions of module Parsing.
 */
module ParseProperties {
  import opened Wrappers
  import opened Runes
  import opened GoText
  import opened Types
  import opened Flags
  import opened FlagState
  import opened SetOps
  import opened Parsing

  /**
   * The three operand shapes are exactly the arguments without the flag
   * bit, and a flag is never a double hyphen: the IsDoubleHyphen branch
   * that follows the operand branch in parse can never be taken.
   */
  lemma OperandsExactly(arg: string)
    ensures !TstFlagBit(ParseSingleArg(arg).mask) <==> |arg| < 2 || arg[0] != '-' || arg == "--"
    ensures TstFlagBit(ParseSingleArg(arg).mask) ==> !IsDoubleHyphenArg(ParseSingleArg(arg).mask)
    ensures IsDoubleHyphenArg(ParseSingleArg(arg).mask) <==> arg == "--"
  {
    OperandShapes(arg);
  }

  /**
   * An operand is pushed to the output as it was given. With
   * PosixOperandStop parse then returns, and the rest of the input
   * follows it to the output; without, parsing goes on.
   */
  lemma OperandStep(cfg: Config, tos: Setter, s: St, pos: int)
    requires SetterOk(tos) && StOk(s) && s.halt.None? && s.input != []
    requires !TstFlagBit(ParseSingleArg(s.input[0]).mask)
    ensures StepOf(cfg, tos, s, pos) ==
      if cfg.posixOperandStop then Pass(s.(input := [], output := s.output + s.input), pos + 1, true)
      else Pass(s.(input := s.input[1..], output := s.output + [s.input[0]]), pos + 1, false)
  {
    assert s.output + [s.input[0]] + s.input[1..] == s.output + s.input by {
      assert s.input == [s.input[0]] + s.input[1..];
    }
  }

  /** Under PosixOperandStop, parse ends at the first operand, which with all after it becomes output. */
  lemma OperandStopsParse(cfg: Config, tos: Setter, s: St, pos: int)
    requires SetterOk(tos) && StOk(s) && s.halt.None? && s.input != []
    requires cfg.posixOperandStop && !TstFlagBit(ParseSingleArg(s.input[0]).mask)
    ensures ParseFrom(cfg, tos, s, pos) == s.(input := [], output := s.output + s.input)
  {
    OperandStep(cfg, tos, s, pos);
  }

  /**
   * A "--" that is not peeked at after a flag is an operand like any
   * other: it is pushed to the output and, under GNU rules, the
   * arguments after it are still parsed as flags.
   */
  lemma DoubleHyphenIsOperand(cfg: Config, tos: Setter, s: St, pos: int)
    requires SetterOk(tos) && StOk(s) && s.halt.None? && s.input != [] && s.input[0] == "--"
    ensures !cfg.posixOperandStop ==>
      StepOf(cfg, tos, s, pos) == Pass(s.(input := s.input[1..], output := s.output + ["--"]), pos + 1, false)
    ensures cfg.posixOperandStop ==> ParseFrom(cfg, tos, s, pos) == s.(input := [], output := s.output + s.input)
  {
    OperandShapes("--");
    OperandStep(cfg, tos, s, pos);
    if cfg.posixOperandStop {
      OperandStopsParse(cfg, tos, s, pos);
    }
  }

  /**
   * A short flag with an attached "=": under PosixEquals the "=" is part
   * of the option-argument, otherwise only what follows it is, as in
   * "-s=python".
   */
  lemma PosixEqualsSets(cfg: Config, tos: Setter, s: St, c: char, v: string, h: nat, pos: int)
    requires SetterOk(tos) && StOk(s) && s.halt.None? && s.input != []
    requires s.input[0] == ['-', c, '='] + v && c != '-' && c != '='
    requires LookupShortOf(s, RuneOf(c)) == Some(h)
    ensures h < |s.flags|
    ensures StepOf(cfg, tos, s, pos) ==
      Pass(SetOrFailOf(tos, s.(input := s.input[1..]), h, Text(if cfg.posixEquals then "=" + v else v), pos + 1, "failed to set flag"),
        pos + 1, false)
  {
    ShortWithEquals(c, v);
    LookupInArena(s, LongItem([c]));
  }

  /** parseSingleArg of "-c=v": the short flag c with the parameter v. */
  lemma ShortWithEquals(c: char, v: string)
    requires c != '-' && c != '='
    ensures var p := ParseSingleArg(['-', c, '='] + v);
      p.flags == [c] && p.param == v && TstParamBit(p.mask) && ShortOrCluster(p.mask) &&
      !TstClusterBit(p.mask) && !TstLongBit(p.mask)
  {
    var arg := ['-', c, '='] + v;
    var body := arg[1..];
    assert arg[..2] == ['-', c];
    assert body == [c, '='] + v;
    EqualsAt2(c, v);
    FlagArgShort(body);
    FlagArgParam(body, AMClear);
    assert body[..1] == [c];
    assert body[2..] == v;
  }

  /** The first "=" of c "=" v, for a c that is no "=", is at 1. */
  lemma EqualsAt2(c: char, v: string)
    requires c != '='
    ensures Index([c, '='] + v, "=") == 1
  {
    var b := [c, '='] + v;
    assert OccursAt(b, "=", 1) by { assert b[1..2] == "="; }
    assert !OccursAt(b, "=", 0) by { assert b[0..1] == [c]; }
  }

  /**
   * A "--" peeked at after a flag without an attached parameter: under
   * GNU rules parsing ends, the "--" is dropped and the rest of the input
   * becomes output; under PosixDoubleHyphen a "--" that Test accepts is
   * Set as the flag's option-argument and shifted off, and one that Test
   * refuses ends parsing in the same way.
   */
  lemma PeekedDoubleHyphen(cfg: Config, tos: Setter, s: St, h: nat, am: ArgMask, param: string, i: int)
    requires SetterOk(tos) && StOk(s) && s.halt.None? && h < |s.flags|
    requires !TstParamBit(am) && s.input != [] && s.input[0] == "--"
    ensures var r := AfterFlagOf(cfg, tos, s, h, am, param, i);
      var t := tos(s, h, Text("--"), false, i);
      (!cfg.posixDoubleHyphen ==> r == Pass(s.(input := [], output := s.output + s.input[1..]), i, true)) &&
      (cfg.posixDoubleHyphen && t.0.halt.None? && t.1.Some? ==>
        r == Pass(t.0.(input := [], output := s.output + s.input[1..]), i, true)) &&
      (cfg.posixDoubleHyphen && t.0.halt.None? && t.1.None? ==>
        r.pos == i + 1 && !r.done &&
        r.s == ConsumeOf(SetOrFailOf(tos, t.0, h, Text("--"), i, "failed to set flag with `--` after Test()")))
  {
    OperandShapes("--");
    TextWf("--");
  }

  /**
   * A detached option-argument: an operand after a flag that is not a
   * bool is Set on the flag, and is shifted off the input exactly when
   * that Set succeeds; when it fails, no Failf follows and the operand
   * stays to be parsed next.
   */
  lemma DetachedConsumedIffSet(cfg: Config, tos: Setter, s: St, h: nat, am: ArgMask, param: string, i: int)
    requires SetterOk(tos) && StOk(s) && s.halt.None? && h < |s.flags|
    requires !TstParamBit(am) && s.input != [] && s.input[0] != "--"
    requires !TstFlagBit(ParseSingleArg(s.input[0]).mask) && !IsBool(s.flags[h])
    ensures var r := AfterFlagOf(cfg, tos, s, h, am, param, i);
      var t := tos(s, h, Text(s.input[0]), true, i);
      !r.done && r.s.flags == t.0.flags && r.s.halt == t.0.halt &&
      (r.pos == i + 1 <==> t.1.None?) &&
      (r.s.input == if t.1.None? && t.0.halt.None? then s.input[1..] else s.input)
  {
    var q := ParseSingleArg(s.input[0]);
    TextWf(q.param);
    OperandsExactly(s.input[0]);
  }

  /**
   * A bool flag never takes a detached option-argument: the next
   * argument, unless it is "--", stays on the input and the flag is set
   * with nil.
   */
  lemma BoolNeverConsumes(cfg: Config, tos: Setter, s: St, h: nat, am: ArgMask, param: string, i: int)
    requires SetterOk(tos) && StOk(s) && s.halt.None? && h < |s.flags|
    requires !TstParamBit(am) && s.input != [] && s.input[0] != "--" && IsBool(s.flags[h])
    ensures AfterFlagOf(cfg, tos, s, h, am, param, i) ==
      Pass(SetOrFailOf(tos, s, h, Nil, i, "failed to set flag with no parameter"), i, false)
    ensures AfterFlagOf(cfg, tos, s, h, am, param, i).s.input == s.input
  {
    var q := ParseSingleArg(s.input[0]);
    OperandsExactly(s.input[0]);
  }

  /**
   * An alias of a bool is no bool, since its storage target is nil: an
   * operand after it is tried as its option-argument.
   */
  lemma AliasOfBoolTriesDetached(flagCfg: Config, cfg: Config, tos: Setter, s: St, h: nat,
                                 flags: seq<Flag>, target: nat, short: Rune, long: string,
                                 am: ArgMask, param: string, i: int)
    requires SetterOk(tos) && StOk(s) && s.halt.None? && h < |s.flags|
    requires ArenaOk(flags) && target < |flags| && NewAliasOf(flagCfg, flags, target, short, long).Ok?
    requires NewAliasOf(flagCfg, flags, target, short, long).value == Some(s.flags[h])
    requires !TstParamBit(am) && s.input != [] && s.input[0] != "--"
    requires !TstFlagBit(ParseSingleArg(s.input[0]).mask)
    ensures var r := AfterFlagOf(cfg, tos, s, h, am, param, i);
      var t := tos(s, h, Text(s.input[0]), true, i);
      r.s.input == if t.1.None? && t.0.halt.None? then s.input[1..] else s.input
  {
    AliasNeverBool(flagCfg, flags, target, short, long);
    DetachedConsumedIffSet(cfg, tos, s, h, am, param, i);
  }

  /** A run that parse leaves unhalted has used up its input; one already halted is left as it is. */
  lemma ParseUsesInput(cfg: Config, tos: Setter, s: St, args: seq<string>)
    requires SetterOk(tos) && StOk(s)
    ensures ParseOf(cfg, tos, s, args).halt.None? ==> ParseOf(cfg, tos, s, args).input == []
    ensures s.halt.Some? ==> ParseOf(cfg, tos, s, args) == s.(input := args)
  {
  }
}
