/**
 * flagset.go and flag.go: creating flags in a flag set. Var builds a flag
 * (NewFlag), applies its options in order and registers it (AddFlag);
 * Equ registers an alias of an existing long flag that carries a fixed
 * value.
 *
 * The options that reach into the flag set are here: InMutex names a
 * mutex, WithDefault and WithOptionalDefault record a default and test
 * (or set) the target with it, and WithAlias registers an alias before
 * the flag itself is registered. In Go the new flag exists before
 * AddFlag sees it; here it is appended to the arena first, at handle
 * `|flags|`, and registered afterwards.
 */
module Registration {
  import opened Wrappers
  import opened Runes
  import opened Types
  import opened Trie
  import opened Flags
  import opened FlagState
  import opened SetOps

  /** The arena is closed under the alias hop and the current group exists. */
  predicate Shaped(s: St) {
    ArenaOk(s.flags) && 0 <= s.groupIndex < |s.groups|
  }

  /** `h` is a flag of the arena that is no alias: the flag Var is building. */
  predicate Building(s: St, h: nat) {
    Shaped(s) && h < |s.flags| && s.flags[h].aliasFor.None?
  }

  // ---------------------------------------------------------------------
  // InMutex

  /**
   * InMutex: the flag set learns of the mutex (releasing any claim on
   * it); the flag joins it, and a flag named in the same mutex twice
   * panics.
   */
  function InMutexOf(s: St, h: nat, name: string): (r: St)
    requires h < |s.flags|
    ensures r.mutex == s.mutex[name := None]
    ensures name in s.flags[h].mutexes ==> r == PanicOf(s.(mutex := r.mutex), "flag added to mutex more than once")
    ensures name !in s.flags[h].mutexes ==>
      r == s.(mutex := r.mutex, flags := s.flags[h := s.flags[h].(mutexes := s.flags[h].mutexes + [name])])
  {
    var s1 := s.(mutex := s.mutex[name := None]);
    var f := s.flags[h];
    if name in f.mutexes then PanicOf(s1, "flag added to mutex more than once")
    else s1.(flags := s.flags[h := f.(mutexes := f.mutexes + [name])])
  }

  /**
   * InMutex keeps the mutex names of a flag distinct, which is what
   * MutexCollides needs; afterwards the flag is in the mutex and nobody
   * holds it.
   */
  lemma InMutexDistinct(s: St, h: nat, name: string)
    requires h < |s.flags| && Distinct(s.flags[h].mutexes)
    ensures var r := InMutexOf(s, h, name);
      Distinct(r.flags[h].mutexes) && name in r.flags[h].mutexes && Free(r.mutex, [name])
  {
    var f := s.flags[h];
    if name !in f.mutexes {
      var ns := f.mutexes + [name];
      forall i, j | 0 <= i < j < |ns| ensures ns[i] != ns[j] {
        if j == |f.mutexes| {
          assert ns[i] in f.mutexes;
        }
      }
    }
  }

  // ---------------------------------------------------------------------
  // WithDefault, WithOptionalDefault and the local options

  /** What no option of a flag changes: its names and alias target. */
  predicate SameNames(g: Flag, f: Flag) {
    g.short == f.short && g.long == f.long && g.aliasFor == f.aliasFor
  }

  /** What the options that rewrite only the flag also keep: its mutexes and count. */
  predicate SameIdentity(g: Flag, f: Flag) {
    SameNames(g, f) && g.mutexes == f.mutexes && g.count == f.count
  }

  /**
   * What an option leaves of the flag being configured and of the failure
   * record: the flag's identity and the failure policy; a halted run stays
   * halted as it was.
   */
  predicate Configured(r: Run, ru: Run) {
    SameIdentity(r.f, ru.f) && r.onFail == ru.onFail && r.failExitCode == ru.failExitCode &&
    (ru.halt.Some? ==> r.halt == ru.halt)
  }

  /**
   * setupDefault's type check: a default that is not a string must not be
   * given for a SetValue target and must have the target's base type.
   */
  predicate DefaultFits(f: Flag, def: Value) {
    Tst(Type(def), StringT) ||
    (!Tst(Type(f.value), SetterT) && SameBaseType(Type(f.value), Type(def)))
  }

  /** The flag once setupDefault recorded its default (and, when optional, the optional bit). */
  function WithDefaultRecorded(f: Flag, def: Value, optional: bool): (g: Flag)
    ensures g.default == def && (optional ==> Tst(g.ftype, DefOptionalBit))
    ensures g == f.(default := def, ftype := g.ftype)
    ensures g.ftype & !DefOptionalBit == f.ftype & !DefOptionalBit
    ensures !optional ==> g.ftype == f.ftype
  {
    f.(ftype := if optional then SetBit(f.ftype, DefOptionalBit) else f.ftype, default := def)
  }

  /**
   * setupDefault: a default that does not fit panics; otherwise it is
   * recorded, and GetDefault of it (the first item of an enumeration) is
   * tested against the target (set into it when not optional); a
   * failure panics, after Failf when the default was being set.
   */
  function SetupDefaultOf(env: Env, ru: Run, def: Value, optional: bool): (r: Run)
    ensures Configured(r, ru)
  {
    if !DefaultFits(ru.f, def) then
      if Tst(Type(ru.f.value), SetterT) && !Tst(Type(def), StringT) then RunPanic(ru, "non-string default where value implements SetValue")
      else RunPanic(ru, "type mismatch between default and value")
    else
      var ru1 := ru.(f := WithDefaultRecorded(ru.f, def, optional));
      match DefaultOf(ru1.f)
      case Panic(why) => RunPanic(ru1, why)
      case Ok(d) =>
        var o := TestOrSetOnlyOf(env, ru1, d, !optional);
        if o.1.Some? then RunPanic(o.0, "failed to set/test value to default") else o.0
  }

  /** A default that does not fit panics and changes nothing else. */
  lemma SetupDefaultRefuses(env: Env, ru: Run, def: Value, optional: bool)
    requires ru.halt.None? && !DefaultFits(ru.f, def)
    ensures SetupDefaultOf(env, ru, def, optional).halt.Some?
    ensures SetupDefaultOf(env, ru, def, optional) == ru.(halt := SetupDefaultOf(env, ru, def, optional).halt)
  {
  }

  /**
   * An optional default is only tested: where setupDefault goes through,
   * the flag gets the default and the optional bit and its target is left
   * as it was.
   */
  lemma OptionalDefaultLeavesTarget(env: Env, ru: Run, def: Value)
    requires SetupDefaultOf(env, ru, def, true).halt.None?
    ensures SetupDefaultOf(env, ru, def, true).f == WithDefaultRecorded(ru.f, def, true)
    ensures SetupDefaultOf(env, ru, def, true).f.value == ru.f.value
  {
    var ru1 := ru.(f := WithDefaultRecorded(ru.f, def, true));
    if DefaultFits(ru.f, def) && DefaultOf(ru1.f).Ok? {
      TestOrSetOnlyMeaning(env, ru1, DefaultOf(ru1.f).value, false);
    }
  }

  /**
   * A default that is not optional is written: setupDefault goes through
   * exactly when the (first) default converts, and then the target holds
   * what FromStr makes of it while the rest of the flag only gains the
   * default.
   */
  lemma DefaultIsWritten(env: Env, ru: Run, def: Value)
    requires ru.halt.None? && DefaultFits(ru.f, def)
    requires DefaultOf(ru.f.(default := def)).Ok?
    ensures var f := ru.f.(default := def); var d := DefaultOf(f).value;
      var p := FromStrOf(f.value, TextOf(f, d), f.listSeparator, true, env.setters);
      var r := SetupDefaultOf(env, ru, def, false);
      r.halt.None? <==> (IsText(d) || TextOf(f, d) != "") && p.1.None?
    ensures var f := ru.f.(default := def); var d := DefaultOf(f).value;
      var p := FromStrOf(f.value, TextOf(f, d), f.listSeparator, true, env.setters);
      var r := SetupDefaultOf(env, ru, def, false);
      r.halt.None? ==> r.f == f.(value := p.0)
  {
    var f := ru.f.(default := def);
    assert WithDefaultRecorded(ru.f, def, false) == f;
    var ru1 := ru.(f := f);
    TestOrSetOnlyMeaning(env, ru1, DefaultOf(f).value, true);
  }

  /**
   * An option that only rewrites the flag being built: the defaults, an
   * optional default for a bool flag panicking, and the local options,
   * whose panic stops the run.
   */
  function FlagOptionOf(env: Env, ru: Run, opt: FlagOption): (r: Run)
    requires !opt.WithAlias? && !opt.InMutex?
    ensures Configured(r, ru)
  {
    if opt.WithDefault? then SetupDefaultOf(env, ru, opt.def, false)
    else if opt.WithOptionalDefault? then
      if IsBool(ru.f) then RunPanic(ru, "optional default makes no sense for boolean flag")
      else SetupDefaultOf(env, ru, opt.optDef, true)
    else
      match ApplyLocal(ru.f, opt)
      case Panic(why) => RunPanic(ru, why)
      case Ok(g) => ru.(f := g)
  }

  /** WithOptionalDefault on a bool flag panics. */
  lemma OptionalDefaultNotForBool(env: Env, ru: Run, def: Value)
    requires IsBool(ru.f) && ru.halt.None?
    ensures FlagOptionOf(env, ru, WithOptionalDefault(def)).halt.Some?
  {
  }

  // ---------------------------------------------------------------------
  // WithAlias

  /** The type bits of an alias after WithAlias: obsolete exactly when asked. */
  function ObsoleteType(ft: FlagType, obsolete: bool): (t: FlagType)
    ensures Tst(t, ObsoleteBit) <==> obsolete
    ensures t & !ObsoleteBit == ft & !ObsoleteBit
  {
    if obsolete then SetBit(ft, ObsoleteBit) else ClrBit(ft, ObsoleteBit)
  }

  /** An alias appended to the arena and registered with AddFlag. */
  function AddAliasOf(cfg: Config, s: St, a: Flag): (r: (St, Option<AddError>))
    requires Shaped(s) && a.aliasFor.Some? && a.aliasFor.value < |s.flags|
    ensures Shaped(r.0) && r.0.flags == s.flags + [a]
  {
    AddFlagOf(cfg, s.(flags := s.flags + [a]), Some(|s.flags|))
  }

  /**
   * Where AddFlag takes the alias, it is listed last in the current group
   * and nothing before it in the arena changes.
   */
  lemma AddAliasLists(cfg: Config, s: St, a: Flag)
    requires Shaped(s) && a.aliasFor.Some? && a.aliasFor.value < |s.flags|
    requires IsValidPair(cfg, a.short, a.long) == Ok(true) && AddAliasOf(cfg, s, a).1.None?
    ensures AddAliasOf(cfg, s, a).0.groups[s.groupIndex].flagList == s.groups[s.groupIndex].flagList + [|s.flags|]
  {
    var s1 := s.(flags := s.flags + [a]);
    AddFlagSteps(cfg, s1, |s.flags|);
    AddShortRegisters(s1.(longTrie := AddFlagOf(cfg, s1, Some(|s.flags|)).0.longTrie), |s.flags|);
  }

  lemma AddAliasKeepsOk(cfg: Config, s: St, a: Flag)
    requires Shaped(s) && a.aliasFor.Some? && a.aliasFor.value < |s.flags|
    ensures StOk(s) ==> StOk(AddAliasOf(cfg, s, a).0)
  {
    if StOk(s) {
      AddFlagKeepsOk(cfg, s.(flags := s.flags + [a]), Some(|s.flags|));
    }
  }

  /**
   * AddFlag of flag `h`, whose refusal panics with `why`; everything else
   * about the state is AddFlag's.
   */
  function MustAddOf(cfg: Config, s: St, h: nat, why: string): (r: St)
    requires Shaped(s) && h < |s.flags|
    ensures Shaped(r) && r.flags == s.flags
    ensures StOk(s) ==> StOk(r)
    ensures r.input == s.input && r.output == s.output
  {
    var ad := AddFlagOf(cfg, s, Some(h));
    AddKeepsOk(cfg, s, h);
    FailKeepsOk(ad.0);
    MustAddResult(ad, why)
  }

  lemma AddKeepsOk(cfg: Config, s: St, h: nat)
    requires Shaped(s) && h < |s.flags|
    ensures StOk(s) ==> StOk(AddFlagOf(cfg, s, Some(h)).0)
  {
    if StOk(s) {
      AddFlagKeepsOk(cfg, s, Some(h));
    }
  }

  /** The state AddFlag leaves, halted when it refused. */
  function MustAddResult(ad: (St, Option<AddError>), why: string): (r: St)
    ensures r.flags == ad.0.flags && r.groups == ad.0.groups && r.groupIndex == ad.0.groupIndex
    ensures r.halt.None? <==> ad.1.None? && ad.0.halt.None?
    ensures ad.1.None? ==> r == ad.0
  {
    if ad.1.Some? then PanicOf(ad.0, why) else ad.0
  }

  /**
   * WithAlias past its checks of the names: an alias of flag `h` is made
   * (an invalid pair panics), marked obsolete or not, appended to the
   * arena and registered; a refusal panics.
   */
  function MakeAliasOf(cfg: Config, s: St, h: nat, short: Rune, long: string, obsolete: bool): (r: St)
    requires Shaped(s) && h < |s.flags|
    ensures Shaped(r) && |r.flags| >= |s.flags| && r.flags[..|s.flags|] == s.flags
    ensures StOk(s) ==> StOk(r)
    ensures r.input == s.input && r.output == s.output
  {
    FailKeepsOk(s);
    var c := NewAliasOf(cfg, s.flags, h, short, long);
    if c.Panic? || c.value.None? then PanicOf(s, if c.Panic? then c.why else "error creating alias")
    else
      var a := c.value.value;
      var s1 := s.(flags := s.flags + [a.(ftype := ObsoleteType(a.ftype, obsolete))]);
      assert s1.flags[..|s.flags|] == s.flags;
      MustAddOf(cfg, s1, |s.flags|, "error adding alias")
  }

  /**
   * WithAlias: a long or a short that is already taken panics; otherwise
   * the alias is made and registered.
   */
  function WithAliasOf(cfg: Config, s: St, h: nat, short: Rune, long: string, obsolete: bool): (r: St)
    requires Shaped(s) && h < |s.flags|
    ensures Shaped(r) && |r.flags| >= |s.flags| && r.flags[..|s.flags|] == s.flags
    ensures StOk(s) ==> StOk(r)
    ensures r.input == s.input && r.output == s.output
  {
    FailKeepsOk(s);
    if long != NoLong && LookupLongOf(s, long).Some? then PanicOf(s, "long flag already exists for alias")
    else if short != NoShort && LookupShortOf(s, short).Some? then PanicOf(s, "short flag already exists for alias")
    else MakeAliasOf(cfg, s, h, short, long, obsolete)
  }

  /**
   * Where WithAlias goes through, the alias follows the flags of the
   * arena: it stands for `h`, has the asked names and no target, is
   * obsolete exactly when asked, and is listed in the current group.
   */
  lemma WithAliasAppends(cfg: Config, s: St, h: nat, short: Rune, long: string, obsolete: bool)
    requires Shaped(s) && h < |s.flags| && s.halt.None?
    requires WithAliasOf(cfg, s, h, short, long, obsolete).halt.None?
    ensures var r := WithAliasOf(cfg, s, h, short, long, obsolete);
      |r.flags| == |s.flags| + 1 &&
      r.flags[|s.flags|].aliasFor == Some(h) && r.flags[|s.flags|].short == short &&
      r.flags[|s.flags|].long == long && r.flags[|s.flags|].value == Nil &&
      (Tst(r.flags[|s.flags|].ftype, ObsoleteBit) <==> obsolete) &&
      r.groups[s.groupIndex].flagList == s.groups[s.groupIndex].flagList + [|s.flags|]
    ensures long != NoLong ==> LookupLongOf(s, long).None?
    ensures short != NoShort ==> LookupShortOf(s, short).None?
  {
    var a := NewAliasOf(cfg, s.flags, h, short, long).value.value;
    AddAliasLists(cfg, s, a.(ftype := ObsoleteType(a.ftype, obsolete)));
  }

  // ---------------------------------------------------------------------
  // Applying the options of a new flag

  /**
   * One option of the flag `h` that Var is building: WithAlias and InMutex
   * reach into the flag set, the others rewrite the flag alone.
   */
  function ApplyOptionOf(env: Env, s: St, h: nat, opt: FlagOption): (r: St)
    requires Building(s, h)
    ensures Building(r, h) && SameNames(r.flags[h], s.flags[h])
    ensures r.input == s.input && r.output == s.output
  {
    if opt.WithAlias? then AliasOptionOf(env.cfg, s, h, opt.aliasShort, opt.aliasLong, opt.obsolete)
    else if opt.InMutex? then MutexOptionOf(s, h, opt.name)
    else FlagOnlyOf(env, s, h, opt)
  }

  /** WithAlias while the flag `h` is being built. */
  function AliasOptionOf(cfg: Config, s: St, h: nat, short: Rune, long: string, obsolete: bool): (r: St)
    requires Building(s, h)
    ensures Building(r, h) && SameNames(r.flags[h], s.flags[h])
    ensures r.input == s.input && r.output == s.output
  {
    var r := WithAliasOf(cfg, s, h, short, long, obsolete);
    PrefixAt(r.flags, s.flags, h);
    r
  }

  /** InMutex while the flag `h` is being built. */
  function MutexOptionOf(s: St, h: nat, name: string): (r: St)
    requires Building(s, h)
    ensures Building(r, h) && SameNames(r.flags[h], s.flags[h])
    ensures r.input == s.input && r.output == s.output
  {
    ArenaUpdate(s.flags, h, s.flags[h].(mutexes := s.flags[h].mutexes + [name]));
    InMutexOf(s, h, name)
  }

  /** A flag within a kept prefix of the arena. */
  lemma PrefixAt(a: seq<Flag>, b: seq<Flag>, h: nat)
    requires |a| >= |b| && a[..|b|] == b && h < |b|
    ensures a[h] == b[h]
  {
    assert a[..|b|][h] == a[h];
  }

  /** Rewriting a flag without changing what it is an alias for keeps the arena closed. */
  lemma ArenaUpdate(flags: seq<Flag>, h: nat, f: Flag)
    requires ArenaOk(flags) && h < |flags| && f.aliasFor == flags[h].aliasFor
    ensures ArenaOk(flags[h := f])
  {
  }

  /** An option that rewrites only the flag being built, and the failure record. */
  function FlagOnlyOf(env: Env, s: St, h: nat, opt: FlagOption): (r: St)
    requires Building(s, h) && !opt.WithAlias? && !opt.InMutex?
    ensures Building(r, h) && SameNames(r.flags[h], s.flags[h])
    ensures r.input == s.input && r.output == s.output
  {
    Store(s, h, FlagOptionOf(env, RunOf(s, h), opt))
  }

  /** NewFlag's loop over the options: each in turn, until one stops the run. */
  function ApplyOptionsOf(env: Env, s: St, h: nat, opts: seq<FlagOption>): (r: St)
    requires Building(s, h)
    ensures Building(r, h) && SameNames(r.flags[h], s.flags[h])
    ensures s.halt.Some? ==> r == s
    decreases |opts|
  {
    if opts == [] || s.halt.Some? then s
    else ApplyOptionsOf(env, ApplyOptionOf(env, s, h, opts[0]), h, opts[1..])
  }

  // ---------------------------------------------------------------------
  // Var and Equ

  /**
   * Var: NewFlag (a panic stops the run, and a nil flag panics as well),
   * then the flag is built. A halted run is left as it is.
   */
  function VarOf(env: Env, s: St, value: Value, short: Rune, long: string, usage: string, opts: seq<FlagOption>): (r: St)
    requires Shaped(s)
    ensures Shaped(r)
    ensures s.halt.Some? ==> r == s
    ensures StOk(s) ==> StOk(r)
  {
    FailKeepsOk(s);
    var c := NewFlagOf(env.cfg, value, short, long, usage);
    if s.halt.Some? then s
    else if c.Panic? || c.value.None? then PanicOf(s, if c.Panic? then c.why else "failed to create new flag")
    else BuildOf(env, s, c.value.value, opts)
  }

  /**
   * Var past NewFlag: the flag appended at handle `|flags|` and its
   * options applied, then AddFlag, whose refusal panics.
   */
  function BuildOf(env: Env, s: St, f: Flag, opts: seq<FlagOption>): (r: St)
    requires Shaped(s) && f.aliasFor.None?
    ensures Shaped(r)
    ensures StOk(s) ==> StOk(r)
  {
    var h := |s.flags|;
    var s0 := s.(flags := s.flags + [f]);
    AppendAndApply(env, s, f, opts);
    var s1 := ApplyOptionsOf(env, s0, h, opts);
    if s1.halt.Some? then s1 else MustAddOf(env.cfg, s1, h, "failed to add new flag")
  }

  /** A target NewFlag refuses (not a pointer, or a non-empty slice) makes Var panic at once. */
  lemma VarRefusesTarget(env: Env, s: St, value: Value, short: Rune, long: string, usage: string, opts: seq<FlagOption>)
    requires Shaped(s) && s.halt.None?
    requires !Tst(Type(value), PointerT) || (Tst(Type(value), SliceT) && SliceLen(value) != 0)
    ensures VarOf(env, s, value, short, long, usage, opts) == s.(halt := Some(Panicked("failed to create new flag")))
  {
  }

  /**
   * A flag AddFlag takes is listed in the current group and found by its
   * short and, exactly, by its long name.
   */
  lemma Registered(cfg: Config, s: St, h: nat)
    requires StOk(s) && h < |s.flags|
    requires IsValidPair(cfg, s.flags[h].short, s.flags[h].long) == Ok(true) && AddFlagOf(cfg, s, Some(h)).1.None?
    ensures var r := AddFlagOf(cfg, s, Some(h)).0; var f := s.flags[h];
      h in r.groups[s.groupIndex].flagList &&
      (f.short != NoShort ==> LookupShortOf(r, f.short) == Some(h)) &&
      (f.long != NoLong ==> Get(r.longTrie, f.long) == Some(h))
  {
    AddFlagSteps(cfg, s, h);
    AddShortRegisters(s.(longTrie := AddFlagOf(cfg, s, Some(h)).0.longTrie), h);
    AddFlagFindable(cfg, s, h);
  }

  /**
   * Where Var goes through, the new flag is the flag NewFlag made, at
   * handle `|flags|`, as its options left it, listed in the current group
   * and found by its names.
   */
  lemma VarRegisters(env: Env, s: St, value: Value, short: Rune, long: string, usage: string, opts: seq<FlagOption>)
    requires StOk(s) && s.halt.None?
    requires VarOf(env, s, value, short, long, usage, opts).halt.None?
    ensures NewFlagOf(env.cfg, value, short, long, usage).Ok?
    ensures NewFlagOf(env.cfg, value, short, long, usage).value.Some?
    ensures var f := NewFlagOf(env.cfg, value, short, long, usage).value.value; var h := |s.flags|;
      var r := VarOf(env, s, value, short, long, usage, opts);
      r.flags == ApplyOptionsOf(env, s.(flags := s.flags + [f]), h, opts).flags &&
      h in r.groups[r.groupIndex].flagList &&
      (short != NoShort ==> LookupShortOf(r, short) == Some(h)) &&
      (long != NoLong ==> Get(r.longTrie, long) == Some(h))
  {
    var f := NewFlagOf(env.cfg, value, short, long, usage).value.value;
    var h := |s.flags|;
    var s1 := ApplyOptionsOf(env, s.(flags := s.flags + [f]), h, opts);
    OptionsKeepOk(env, s.(flags := s.flags + [f]), h, opts);
    Registered(env.cfg, s1, h);
  }

  /**
   * Equ: the long flag `equiv` must exist (otherwise it panics); an alias
   * of it is made (an invalid pair panics) carrying the text `value`, and
   * registered; a refusal goes to Failf. The fixed value is recorded in
   * the alias and nowhere else. A halted run is left as it is.
   */
  function EquOf(cfg: Config, s: St, short: Rune, long: string, equiv: string, value: string): (r: St)
    requires StOk(s)
    ensures Shaped(r)
    ensures s.halt.Some? ==> r == s
  {
    if s.halt.Some? then s
    else match LookupLongOf(s, equiv)
      case None => PanicOf(s, "flag not found in equivalent lookup")
      case Some(t) =>
        LookupInArena(s, LongItem(equiv));
        if NewAliasOf(cfg, s.flags, t, short, long).Panic? then PanicOf(s, NewAliasOf(cfg, s.flags, t, short, long).why)
        else
          var ad := AddAliasOf(cfg, s, EquivAlias(cfg, s.flags, t, short, long, value));
          if ad.1.Some? then FailfOf(ad.0, "error adding alias") else ad.0
  }

  /** The alias Equ makes of flag `t`: NewAlias with the option that gives it the text. */
  function EquivAlias(cfg: Config, flags: seq<Flag>, t: nat, short: Rune, long: string, value: string): Flag
    requires ArenaOk(flags) && t < |flags| && IsValidPair(cfg, short, long) == Ok(true)
  {
    ApplyLocal(NewAliasOf(cfg, flags, t, short, long).value.value, WithValue(value)).value
  }

  /** Equ of a long name no flag answers to panics and changes nothing else. */
  lemma EquNeedsTarget(cfg: Config, s: St, short: Rune, long: string, equiv: string, value: string)
    requires StOk(s) && s.halt.None? && LookupLongOf(s, equiv).None?
    ensures EquOf(cfg, s, short, long, equiv, value) == s.(halt := Some(Panicked("flag not found in equivalent lookup")))
  {
  }

  /**
   * Where Equ registers its alias, the alias follows the flags of the
   * arena: it stands for the flag `equiv` finds, carries the text as its
   * value, has the asked names and is listed in the current group.
   */
  lemma EquAppends(cfg: Config, s: St, short: Rune, long: string, equiv: string, value: string)
    requires StOk(s) && s.halt.None? && LookupLongOf(s, equiv).Some?
    requires IsValidPair(cfg, short, long) == Ok(true)
    requires LookupLongOf(s, equiv).value < |s.flags|
    requires AddAliasOf(cfg, s, EquivAlias(cfg, s.flags, LookupLongOf(s, equiv).value, short, long, value)).1.None?
    ensures var r := EquOf(cfg, s, short, long, equiv, value);
      |r.flags| == |s.flags| + 1 && r.flags[..|s.flags|] == s.flags &&
      r.flags[|s.flags|].aliasFor == LookupLongOf(s, equiv) &&
      r.flags[|s.flags|].value == Text(value) &&
      r.flags[|s.flags|].short == short && r.flags[|s.flags|].long == long &&
      r.groups[s.groupIndex].flagList == s.groups[s.groupIndex].flagList + [|s.flags|]
  {
    var t := LookupLongOf(s, equiv).value;
    AddAliasLists(cfg, s, EquivAlias(cfg, s.flags, t, short, long, value));
  }

  // ---------------------------------------------------------------------
  // Creating flags keeps the registry sound

  lemma InMutexKeepsOk(s: St, h: nat, name: string)
    requires StOk(s) && h < |s.flags|
    ensures StOk(InMutexOf(s, h, name))
  {
  }

  /** Storing a flag that kept its alias target keeps every handle inside the arena. */
  lemma StoreKeepsOk(s: St, h: nat, ru: Run)
    requires StOk(s) && h < |s.flags| && ru.f.aliasFor == s.flags[h].aliasFor
    ensures StOk(Store(s, h, ru))
  {
  }

  /** A flag with no alias target appended to the arena keeps every handle inside it. */
  lemma AppendKeepsOk(s: St, f: Flag)
    requires StOk(s) && f.aliasFor.None?
    ensures StOk(s.(flags := s.flags + [f]))
  {
  }

  lemma OptionKeepsOk(env: Env, s: St, h: nat, opt: FlagOption)
    requires StOk(s) && Building(s, h)
    ensures StOk(ApplyOptionOf(env, s, h, opt))
  {
    if opt.WithAlias? {
    } else if opt.InMutex? {
      InMutexKeepsOk(s, h, opt.name);
    } else {
      StoreKeepsOk(s, h, FlagOptionOf(env, RunOf(s, h), opt));
    }
  }

  /** Applying options keeps every handle of the registry inside the arena. */
  lemma {:induction false} OptionsKeepOk(env: Env, s: St, h: nat, opts: seq<FlagOption>)
    requires StOk(s) && Building(s, h)
    ensures StOk(ApplyOptionsOf(env, s, h, opts))
    decreases |opts|
  {
    if opts != [] && s.halt.None? {
      OptionKeepsOk(env, s, h, opts[0]);
      OptionsKeepOk(env, ApplyOptionOf(env, s, h, opts[0]), h, opts[1..]);
    }
  }

  /** Appending a flag with no alias target and applying its options keeps the registry sound. */
  lemma AppendAndApply(env: Env, s: St, f: Flag, opts: seq<FlagOption>)
    requires Shaped(s) && f.aliasFor.None?
    ensures StOk(s) ==> StOk(ApplyOptionsOf(env, s.(flags := s.flags + [f]), |s.flags|, opts))
  {
    if StOk(s) {
      AppendKeepsOk(s, f);
      OptionsKeepOk(env, s.(flags := s.flags + [f]), |s.flags|, opts);
    }
  }

  /** Equ keeps every handle of the registry inside the arena. */
  lemma EquKeepsOk(cfg: Config, s: St, short: Rune, long: string, equiv: string, value: string)
    requires StOk(s)
    ensures StOk(EquOf(cfg, s, short, long, equiv, value))
  {
    FailKeepsOk(s);
    if s.halt.None? && LookupLongOf(s, equiv).Some? {
      var t := LookupLongOf(s, equiv).value;
      LookupInArena(s, LongItem(equiv));
      if NewAliasOf(cfg, s.flags, t, short, long).Ok? {
        var a := EquivAlias(cfg, s.flags, t, short, long, value);
        AddAliasKeepsOk(cfg, s, a);
        FailKeepsOk(AddAliasOf(cfg, s, a).0);
      }
    }
  }
}
