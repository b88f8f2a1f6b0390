/**
 * flag.go: what setting a flag does, on snapshots of its flag set.
 *
 * Set and Test run one chain (testOrSet): the mutex claim, the SetValue
 * interface, the alias hop, the count, counters, file readers,
 * callbacks, the repeat check, the nil value with its bool toggle, the
 * enumerated defaults and finally the conversion of the text into the
 * target (testOrSetOnly). Test runs the chain with `doSet` false: it
 * writes no target, but it still claims mutexes, and a mutex collision
 * or a default that the value cannot be coerced to still goes through
 * Failf.
 *
 * Failf messages are recorded without their formatted arguments.
 */
module SetOps {
  import opened Wrappers
  import opened Types
  import opened Flags
  import opened FlagState
  import opened Coerce

  /** The errors Set and Test return. */
  datatype SetError =
    | MutexCollision
    | SetterNeedsString
    | SetterRefused
    | Halted
    | ReaderNeedsString
    | OpenFailed
    | CallbackFailed
    | NotRepeatable
    | NilWithoutDefault
    | NotInDefaults
    | NoText
    | Unparsed(e: TypesError)

  /** A Go string, as opposed to any other value passed to Set. */
  predicate IsText(v: Value) {
    v.Plain? && v.x.S?
  }

  /** The text of a Go string. */
  function Text(s: string): Value {
    Plain(S(s))
  }

  // ---------------------------------------------------------------------
  // The flag being set

  /**
   * What the chain of Set works on: the flag itself, whose count and
   * target change, and the failure record of its flag set under that
   * set's failure policy (Flag.Failf forwards to the flag set).
   */
  datatype Run = Run(f: Flag, onFail: FailOption, failExitCode: int, errors: seq<string>, halt: Option<Halt>)

  /** Flag `t` of a flag set, ready to be set. */
  function RunOf(s: St, t: nat): Run
    requires t < |s.flags|
  {
    Run(s.flags[t], s.onFail, s.failExitCode, s.errors, s.halt)
  }

  /** The flag set once flag `t` has been through the chain. */
  function Store(s: St, t: nat, ru: Run): St
    requires t < |s.flags|
  {
    s.(flags := s.flags[t := ru.f], errors := ru.errors, halt := ru.halt)
  }

  /** Flag.Failf: Failf of the flag set, on the failure record. */
  function RunFailf(ru: Run, msg: string): (r: Run)
    ensures r.f == ru.f && r.onFail == ru.onFail && r.failExitCode == ru.failExitCode
    ensures ru.halt.Some? ==> r == ru
    ensures ru.halt.None? ==> r.halt.None? == TstContinue(ru.onFail)
  {
    var l := FailLog(ru.onFail, ru.failExitCode, ru.errors, ru.halt, msg);
    ru.(errors := l.0, halt := l.1)
  }

  /** Failf through a flag is Failf of its flag set. */
  lemma RunFailfIsFailf(s: St, t: nat, msg: string)
    requires t < |s.flags|
    ensures Store(s, t, RunFailf(RunOf(s, t), msg)) == FailfOf(s, msg)
  {
    assert s.flags[t := s.flags[t]] == s.flags;
  }

  /** log.Panic while a flag is set: the run stops, unless it already has. */
  function RunPanic(ru: Run, why: string): (r: Run)
    ensures r.f == ru.f && r.onFail == ru.onFail && r.failExitCode == ru.failExitCode && r.errors == ru.errors
    ensures r.halt.Some? && (ru.halt.Some? ==> r == ru)
  {
    if ru.halt.Some? then ru else ru.(halt := Some(Panicked(why)))
  }

  /** `if doSet { f.Failf(...) }`. */
  function FailIf(ru: Run, doSet: bool, msg: string): (r: Run)
    ensures !doSet ==> r == ru
    ensures doSet ==> r == RunFailf(ru, msg)
  {
    if doSet then RunFailf(ru, msg) else ru
  }

  /** Count++. */
  function Counted(ru: Run): (r: Run)
    ensures r.f.count == ru.f.count + 1
    ensures r == ru.(f := r.f) && r.f == ru.f.(count := r.f.count)
  {
    ru.(f := ru.f.(count := ru.f.count + 1))
  }

  // ---------------------------------------------------------------------
  // What Set may change

  /** Two flags that differ at most in their count and their target's contents. */
  predicate SameFlagBut(g: Flag, f: Flag) {
    SameKind(g.value, f.value) &&
    g.long == f.long && g.short == f.short && g.ftype == f.ftype &&
    g.valueTypeTag == f.valueTypeTag && g.default == f.default && g.aliasFor == f.aliasFor &&
    g.usage == f.usage && g.callback == f.callback && g.listSeparator == f.listSeparator &&
    g.mutexes == f.mutexes && g.savedCallback == f.savedCallback
  }

  /**
   * What the chain leaves alone: all of the flag but its count and
   * target contents, and the failure policy; a halted run stays halted
   * as it was.
   */
  predicate Keeps(r: Run, ru: Run) {
    SameFlagBut(r.f, ru.f) && r.onFail == ru.onFail && r.failExitCode == ru.failExitCode &&
    (ru.halt.Some? ==> r.halt == ru.halt)
  }

  lemma KeepsTrans(a: Run, b: Run, c: Run)
    requires Keeps(a, b) && Keeps(b, c)
    ensures Keeps(a, c)
  {
  }

  /**
   * What the chain after the count leaves alone: it keeps the count, and
   * under Test it writes nothing to the flag.
   */
  predicate Kept(r: Run, ru: Run, doSet: bool) {
    Keeps(r, ru) && r.f.count == ru.f.count && (!doSet ==> r.f == ru.f)
  }

  lemma KeptTrans(a: Run, b: Run, c: Run, doSet: bool)
    requires Kept(a, b, doSet) && Kept(b, c, doSet)
    ensures Kept(a, c, doSet)
  {
  }

  /**
   * What Set and Test leave alone in the flag set: everything but the
   * counts and targets of the flags, the claims of known mutexes, the
   * recorded messages and the halt; a halted run stays halted as it was.
   */
  predicate SetFrame(r: St, s: St) {
    |r.flags| == |s.flags| &&
    (forall i :: 0 <= i < |s.flags| ==> SameFlagBut(r.flags[i], s.flags[i])) &&
    r.groups == s.groups && r.groupIndex == s.groupIndex && r.longTrie == s.longTrie &&
    r.shortDict == s.shortDict && r.hasHyphenNumIdiom == s.hasHyphenNumIdiom &&
    r.hasNumberShorts == s.hasNumberShorts && r.input == s.input && r.output == s.output &&
    r.onFail == s.onFail && r.failExitCode == s.failExitCode && r.mutex.Keys == s.mutex.Keys &&
    (s.halt.Some? ==> r.halt == s.halt)
  }

  /** Storing a flag that was kept within the chain's frame stays within Set's frame. */
  lemma StoreFrame(s: St, mutex: map<string, Option<nat>>, t: nat, ru: Run)
    requires t < |s.flags| && mutex.Keys == s.mutex.Keys
    requires Keeps(ru, RunOf(s.(mutex := mutex), t))
    ensures SetFrame(Store(s.(mutex := mutex), t, ru), s)
    ensures Store(s.(mutex := mutex), t, ru).mutex == mutex
  {
  }

  // ---------------------------------------------------------------------
  // Mutexes

  /**
   * The loop of MutexCollides over the flag's mutex names: a name the
   * flag set knows and someone holds ends the walk with that holder,
   * even when the holder is `h` itself; a known name nobody holds is
   * claimed for `h` on the way; a name the flag set does not know is
   * skipped. Claims made before a collision stay.
   */
  function Claim(mutex: map<string, Option<nat>>, names: seq<string>, h: nat): (r: (map<string, Option<nat>>, Option<nat>))
    ensures r.0.Keys == mutex.Keys
    decreases |names|
  {
    if names == [] then (mutex, None)
    else if names[0] in mutex then
      if mutex[names[0]].Some? then (mutex, mutex[names[0]])
      else Claim(mutex[names[0] := Some(h)], names[1..], h)
    else Claim(mutex, names[1..], h)
  }

  /** No name occurs twice (InMutex refuses a second membership of the same mutex). */
  predicate Distinct(names: seq<string>) {
    forall i, j :: 0 <= i < j < |names| ==> names[i] != names[j]
  }

  /** Nobody holds a mutex of `names` that the flag set knows. */
  predicate Free(mutex: map<string, Option<nat>>, names: seq<string>) {
    forall n :: n in names && n in mutex ==> mutex[n].None?
  }

  /**
   * MutexCollides finds no holder exactly when the flag's known mutexes
   * are free, in which case it claims every one of them for `h` and
   * changes no other claim; a holder it finds held one of the flag's
   * mutexes before the call.
   */
  lemma {:induction false} ClaimMeaning(mutex: map<string, Option<nat>>, names: seq<string>, h: nat)
    requires Distinct(names)
    ensures Claim(mutex, names, h).1.None? <==> Free(mutex, names)
    ensures Claim(mutex, names, h).1.None? ==>
      forall n :: n in mutex ==> Claim(mutex, names, h).0[n] == (if n in names then Some(h) else mutex[n])
    ensures Claim(mutex, names, h).1.Some? ==>
      exists n :: n in names && n in mutex && mutex[n] == Claim(mutex, names, h).1
    decreases |names|
  {
    if names != [] {
      var n0, rest := names[0], names[1..];
      assert names == [n0] + rest;
      assert Distinct(rest);
      assert n0 !in rest;
      if n0 in mutex {
        if mutex[n0].None? {
          var m1 := mutex[n0 := Some(h)];
          ClaimMeaning(m1, rest, h);
          var r := Claim(m1, rest, h);
          assert Claim(mutex, names, h) == r;
          assert Free(m1, rest) <==> Free(mutex, names);
          if r.1.Some? {
            var n :| n in rest && n in m1 && m1[n] == r.1;
            assert n in names && n in mutex && mutex[n] == r.1;
          }
        } else {
          assert !Free(mutex, names);
        }
      } else {
        ClaimMeaning(mutex, rest, h);
        var r := Claim(mutex, rest, h);
        assert Claim(mutex, names, h) == r;
        assert Free(mutex, rest) <==> Free(mutex, names);
        if r.1.Some? {
          var n :| n in rest && n in mutex && mutex[n] == r.1;
          assert n in names;
        }
      }
    }
  }

  /**
   * The order the mutexes are claimed in decides nothing but which holder
   * a collision reports: for any other order of the same names, Claim
   * collides exactly when it collides in list order, one that does not
   * collide leaves the same claims, and a holder reported in either order
   * held one of the flag's mutexes.
   */
  lemma ClaimOrderFree(mutex: map<string, Option<nat>>, a: seq<string>, b: seq<string>, h: nat)
    requires Distinct(a) && Distinct(b) && forall n :: n in a <==> n in b
    ensures Claim(mutex, a, h).1.None? <==> Claim(mutex, b, h).1.None?
    ensures Claim(mutex, a, h).1.None? ==> Claim(mutex, a, h).0 == Claim(mutex, b, h).0
    ensures Claim(mutex, b, h).1.Some? ==>
      exists n :: n in a && n in mutex && mutex[n] == Claim(mutex, b, h).1
  {
    ClaimMeaning(mutex, a, h);
    ClaimMeaning(mutex, b, h);
    assert Free(mutex, a) <==> Free(mutex, b);
    if Claim(mutex, a, h).1.None? {
      var ra, rb := Claim(mutex, a, h).0, Claim(mutex, b, h).0;
      assert forall n :: n in ra <==> n in rb;
      assert forall n :: n in ra ==> ra[n] == rb[n];
    }
    if Claim(mutex, b, h).1.Some? {
      var n :| n in b && n in mutex && mutex[n] == Claim(mutex, b, h).1;
      assert n in a;
    }
  }

  /**
   * Once a flag has claimed a mutex, its next claim collides with the
   * flag itself: a flag in a mutex cannot be set twice.
   */
  lemma ClaimTwice(mutex: map<string, Option<nat>>, names: seq<string>, h: nat, n: string)
    requires Distinct(names) && n in names && n in mutex
    requires Claim(mutex, names, h).1.None?
    ensures Claim(Claim(mutex, names, h).0, names, h).1 == Some(h)
  {
    var m := Claim(mutex, names, h).0;
    ClaimMeaning(mutex, names, h);
    ClaimMeaning(m, names, h);
    assert m[n] == Some(h);
    if Claim(m, names, h).1.Some? {
      var n' :| n' in names && n' in m && m[n'] == Claim(m, names, h).1;
    }
  }

  /** MutexCollides on the flag set of flag `h`: the holder found, and the claims made. */
  function MutexCollidesOf(s: St, h: nat): (r: (St, Option<nat>))
    requires h < |s.flags|
    ensures r.0 == s.(mutex := r.0.mutex) && r.0.mutex.Keys == s.mutex.Keys
  {
    var c := Claim(s.mutex, s.flags[h].mutexes, h);
    (s.(mutex := c.0), c.1)
  }

  // ---------------------------------------------------------------------
  // testOrSetOnly

  /**
   * testOrSetOnly: a value that is not a string is first rendered with
   * the flag's list separator, and an empty rendering is refused; the
   * text is then converted into the target. The target is written only
   * when `doSet` (a slice keeps the items appended before a bad one), and
   * a failure goes to Failf only when `doSet`.
   */
  function TestOrSetOnlyOf(env: Env, ru: Run, value: Value, doSet: bool): (r: (Run, Option<SetError>))
    ensures r.1 != Some(MutexCollision)
    ensures Kept(r.0, ru, doSet)
  {
    var str := TextOf(ru.f, value);
    if !IsText(value) && str == "" then
      (FailIf(ru, doSet, "failed to convert value to a nonempty string"), Some(NoText))
    else
      var c := Converted(env, ru.f, str, doSet);
      var ru1 := ru.(f := c.0);
      if c.1.Some? then (FailIf(ru1, doSet, "failed to convert value to the target type"), Some(Unparsed(c.1.value)))
      else (ru1, None)
  }

  /** FromStr of a text into the target of `f`, with the flag's list separator. */
  function Converted(env: Env, f: Flag, str: string, doSet: bool): (c: (Flag, Option<TypesError>))
    ensures SameFlagBut(c.0, f) && c.0.count == f.count && (!doSet ==> c.0 == f)
    ensures c == (f.(value := FromStrOf(f.value, str, f.listSeparator, doSet, env.setters).0),
                  FromStrOf(f.value, str, f.listSeparator, doSet, env.setters).1)
  {
    var p := FromStrOf(f.value, str, f.listSeparator, doSet, env.setters);
    (f.(value := p.0), p.1)
  }

  /** The text testOrSetOnly converts: a string as it is, anything else rendered with the list separator. */
  function TextOf(f: Flag, value: Value): string {
    if IsText(value) then value.x.s else StrConvOf(value, f.listSeparator)
  }

  /**
   * testOrSetOnly succeeds exactly when the text was given as a string or
   * renders non-empty and FromStr accepts it; on success the target is
   * what FromStr makes of it (unchanged without `doSet`), and without
   * `doSet` nothing changes at all.
   */
  lemma TestOrSetOnlyMeaning(env: Env, ru: Run, value: Value, doSet: bool)
    ensures var p := FromStrOf(ru.f.value, TextOf(ru.f, value), ru.f.listSeparator, doSet, env.setters);
      TestOrSetOnlyOf(env, ru, value, doSet).1.None? <==> (IsText(value) || TextOf(ru.f, value) != "") && p.1.None?
    ensures var p := FromStrOf(ru.f.value, TextOf(ru.f, value), ru.f.listSeparator, doSet, env.setters);
      TestOrSetOnlyOf(env, ru, value, doSet).1.None? ==> TestOrSetOnlyOf(env, ru, value, doSet).0 == ru.(f := ru.f.(value := p.0))
    ensures !doSet ==> TestOrSetOnlyOf(env, ru, value, doSet).0 == ru
  {
    if !doSet && (IsText(value) || TextOf(ru.f, value) != "") {
      assert ru.f.(value := ru.f.value) == ru.f;
    }
  }

  // ---------------------------------------------------------------------
  // testOrSet

  /** Whether a target implements SetValue. */
  predicate HasSetter(v: Value) {
    v.Opaque? && v.setter.Some?
  }

  /**
   * testOrSet (Set when `doSet`, Test otherwise): a mutex collision is
   * refused first, and happens exactly when one of the flag's mutexes is
   * held, by another flag or by this one; either way the claims made
   * stay, under Test as under Set. A SetValue target is handled on the flag itself;
   * otherwise the alias hop (a second hop panics), the count under Set,
   * and the rest of the chain on the flag the alias stands for.
   */
  function TestOrSetOf(env: Env, s: St, h: nat, value: Value, doSet: bool, pos: int): (r: (St, Option<SetError>))
    requires ArenaOk(s.flags) && h < |s.flags| && Wf(value)
    ensures SetFrame(r.0, s)
    ensures r.0.mutex == Claim(s.mutex, s.flags[h].mutexes, h).0
    ensures r.1 == Some(MutexCollision) <==> Claim(s.mutex, s.flags[h].mutexes, h).1.Some?
  {
    var c := Claim(s.mutex, s.flags[h].mutexes, h);
    if c.1.Some? then
      FailfAfterClaim(s, c.0, "flag conflicts with previously given flag");
      (FailfOf(s.(mutex := c.0), "flag conflicts with previously given flag"), Some(MutexCollision))
    else AfterClaimOf(env, s, c.0, h, value, doSet, pos)
  }

  /** testOrSet after a claim without collision, on the flag set `s` with the claims `mutex` made. */
  function AfterClaimOf(env: Env, s: St, mutex: map<string, Option<nat>>, h: nat, value: Value, doSet: bool, pos: int): (r: (St, Option<SetError>))
    requires ArenaOk(s.flags) && h < |s.flags| && Wf(value) && mutex.Keys == s.mutex.Keys
    ensures SetFrame(r.0, s) && r.0.mutex == mutex && r.1 != Some(MutexCollision)
  {
    var s1 := s.(mutex := mutex);
    if HasSetter(s.flags[h].value) then
      var c := SetterOf(env, RunOf(s1, h), value, doSet);
      StoreFrame(s, mutex, h, c.0);
      (Store(s1, h, c.0), c.1)
    else
      var t := Resolve(s.flags, h);
      if s.flags[t].aliasFor.Some? then
        FailfAfterClaim(s, mutex, "double alias in Flag.Set(...)");
        (PanicOf(s1, "double alias in Flag.Set(...)"), Some(Halted))
      else
        var ru := RunOf(s1, t);
        var c := ChainOf(env, if doSet then Counted(ru) else ru, value, doSet, pos);
        KeepsTrans(c.0, if doSet then Counted(ru) else ru, ru);
        StoreFrame(s, mutex, t, c.0);
        (Store(s1, t, c.0), c.1)
  }

  /** Failf and panics after the claims stay within Set's frame. */
  lemma FailfAfterClaim(s: St, mutex: map<string, Option<nat>>, msg: string)
    requires mutex.Keys == s.mutex.Keys
    ensures SetFrame(FailfOf(s.(mutex := mutex), msg), s) && SetFrame(PanicOf(s.(mutex := mutex), msg), s)
  {
  }

  /** A SetValue target takes only a string, and counts even under Test. */
  function SetterOf(env: Env, ru: Run, value: Value, doSet: bool): (r: (Run, Option<SetError>))
    requires HasSetter(ru.f.value)
    ensures r.1 != Some(MutexCollision)
    ensures Keeps(r.0, ru)
  {
    if IsText(value) then
      (Counted(ru), if doSet && !env.setters(ru.f.value.setter.value, value.x.s) then Some(SetterRefused) else None)
    else (FailIf(ru, doSet, "cannot pass non-string to SetValue.Set(string)"), Some(SetterNeedsString))
  }

  /**
   * The chain on the flag itself (not an alias), after the count: a
   * counter takes its count as text; a file reader reads its file; a
   * callback takes the value (only under Set); a repeat of a flag that is
   * not repeatable is refused, and one that ignores repeats is accepted
   * without effect; a nil value toggles a bool target against its
   * default, or stands for the default; any other value must be among
   * the enumerated defaults; then the value is converted into the target.
   * A callback flag's run, its target included, is left as it was.
   */
  function ChainOf(env: Env, ru: Run, value: Value, doSet: bool, pos: int): (r: (Run, Option<SetError>))
    requires Wf(value) && ru.f.aliasFor.None?
    ensures r.1 != Some(MutexCollision)
    ensures !IsCounter(ru.f) && !IsFileReader(ru.f) && HasCallback(ru.f) ==> r.0 == ru
    ensures Kept(r.0, ru, doSet)
  {
    var f := ru.f;
    if IsCounter(f) then CounterOf(env, ru, doSet)
    else if IsFileReader(f) then ReaderOf(env, ru, value, doSet)
    else if HasCallback(f) then (ru, CallbackOf(env, f, value, doSet, pos))
    else if f.count > 1 && !IsRepeatable(f) then (FailIf(ru, doSet, "flag is not repeatable"), Some(NotRepeatable))
    else if f.count > 1 && IgnoreRepeats(f) then (ru, None)
    else if value == Nil then NilValueOf(env, ru, doSet)
    else DefaultsOf(env, ru, value, doSet)
  }

  /** A counter sets its target from the text of its count; a failure is reported twice under Set. */
  function CounterOf(env: Env, ru: Run, doSet: bool): (r: (Run, Option<SetError>))
    ensures r.1 != Some(MutexCollision)
    ensures Kept(r.0, ru, doSet)
  {
    var r := TestOrSetOnlyOf(env, ru, Text(StrConvOf(Plain(I(Int, ru.f.count)), StrConvSep)), doSet);
    (if r.1.Some? then FailIf(r.0, doSet, "failed to set counter") else r.0, r.1)
  }

  /** The callback takes the value if it is a string, else "", and only under Set. */
  function CallbackOf(env: Env, f: Flag, value: Value, doSet: bool, pos: int): (e: Option<SetError>)
    requires HasCallback(f)
    ensures e.Some? <==> doSet && !env.callbacks(f.callback.value, if IsText(value) then value.x.s else "", pos)
  {
    var v := if IsText(value) then value.x.s else "";
    if doSet && !env.callbacks(f.callback.value, v, pos) then Some(CallbackFailed) else None
  }

  /**
   * Set(nil): a bool target is set to the negation of the default (false
   * when there is no bool default); any other target takes the default,
   * and without one the value is refused.
   */
  function NilValueOf(env: Env, ru: Run, doSet: bool): (r: (Run, Option<SetError>))
    requires ru.f.aliasFor.None?
    ensures r.1 != Some(MutexCollision)
    ensures Kept(r.0, ru, doSet)
  {
    var f := ru.f;
    match DefaultOf(f)
    case Panic(why) => (RunPanic(ru, why), Some(Halted))
    case Ok(d) =>
      if f.value.PtrTo? && f.value.x.B? then
        var def := d.Plain? && d.x.B? && d.x.b;
        (if doSet then ru.(f := f.(value := PtrTo(B(!def)))) else ru, None)
      else if d == Nil then (FailIf(ru, doSet, "Set(nil) called for flag with no default"), Some(NilWithoutDefault))
      else TestOrSetOnlyOf(env, ru, d, doSet)
  }

  /**
   * A value other than nil must be among the enumerated defaults; a
   * coercion error is reported (even under Test) and counts as absent.
   */
  function DefaultsOf(env: Env, ru: Run, value: Value, doSet: bool): (r: (Run, Option<SetError>))
    requires Wf(value) && ru.f.aliasFor.None?
    ensures r.1 != Some(MutexCollision)
    ensures Kept(r.0, ru, doSet)
  {
    match InDefaultsAt(ru.f, value)
    case Panic(_) => assert false; (ru, Some(Halted))
    case Ok(m) =>
      var ru1 := if m.CoerceFailed? then RunFailf(ru, "error coercing value to the type of the defaults") else ru;
      if m == Member then TestOrSetOnlyOf(env, ru1, value, doSet)
      else (FailIf(ru1, doSet, "value not found in defaults"), Some(NotInDefaults))
  }

  /**
   * The file-reader branch: the value names a file whose lines are read
   * in turn; an unreadable name or file is refused.
   */
  function ReaderOf(env: Env, ru: Run, value: Value, doSet: bool): (r: (Run, Option<SetError>))
    ensures r.1 != Some(MutexCollision)
    ensures Kept(r.0, ru, doSet)
  {
    if !IsText(value) then (FailIf(ru, doSet, "file-reader flag expects a filename"), Some(ReaderNeedsString))
    else match env.files(value.x.s)
      case None => (FailIf(ru, doSet, "failed to open file"), Some(OpenFailed))
      case Some(lines) => LinesOf(env, ru, lines, 0, doSet)
  }

  /**
   * The scanner loop from line `i` on (line numbers count from 1): each
   * line goes to the callback (only under Set) or through testOrSetOnly;
   * the first failure ends the loop and the lines before it stay applied.
   */
  function LinesOf(env: Env, ru: Run, lines: seq<string>, i: nat, doSet: bool): (r: (Run, Option<SetError>))
    ensures r.1 != Some(MutexCollision)
    ensures Kept(r.0, ru, doSet)
    decreases |lines| - i
  {
    if i >= |lines| then (ru, None)
    else if HasCallback(ru.f) then
      if doSet && !env.callbacks(ru.f.callback.value, lines[i], i + 1) then
        (RunFailf(ru, "callback failed"), Some(CallbackFailed))
      else LinesOf(env, ru, lines, i + 1, doSet)
    else
      var r := TestOrSetOnlyOf(env, ru, Text(lines[i]), doSet);
      if r.1.Some? then (FailIf(r.0, doSet, "failed to set from line"), r.1)
      else
        var r2 := LinesOf(env, r.0, lines, i + 1, doSet);
        KeptTrans(r2.0, r.0, ru, doSet);
        r2
  }

  // ---------------------------------------------------------------------
  // What Set and Test promise

  /**
   * Set counts the flag an alias stands for before anything in the chain
   * can refuse the value, and then runs the chain on it; Test leaves
   * every flag as it was (a SetValue target aside: it counts under both).
   */
  lemma SetCounts(env: Env, s: St, h: nat, value: Value, pos: int)
    requires ArenaOk(s.flags) && h < |s.flags| && Wf(value)
    requires Claim(s.mutex, s.flags[h].mutexes, h).1.None?
    requires !HasSetter(s.flags[h].value) && s.flags[Resolve(s.flags, h)].aliasFor.None?
    ensures var t := Resolve(s.flags, h);
      TestOrSetOf(env, s, h, value, true, pos).0.flags[t].count == s.flags[t].count + 1
    ensures TestOrSetOf(env, s, h, value, false, pos).0.flags == s.flags
    ensures var t := Resolve(s.flags, h); var m := MutexCollidesOf(s, h); var ru := RunOf(m.0, t);
      TestOrSetOf(env, s, h, value, true, pos) ==
        (Store(m.0, t, ChainOf(env, Counted(ru), value, true, pos).0), ChainOf(env, Counted(ru), value, true, pos).1)
  {
    var t := Resolve(s.flags, h);
    var m := MutexCollidesOf(s, h);
    var ru := RunOf(m.0, t);
    var c := ChainOf(env, ru, value, false, pos);
    assert c.0.f == s.flags[t];
    assert s.flags[t := s.flags[t]] == s.flags;
  }

  /** The chain reaches the nil value and the defaults: no counter, reader or callback, and no repeat it refuses or ignores. */
  predicate Ordinary(f: Flag) {
    !IsCounter(f) && !IsFileReader(f) && !HasCallback(f) && (f.count > 1 ==> IsRepeatable(f) && !IgnoreRepeats(f))
  }

  /**
   * A repeated Set of a flag that is not repeatable is refused, and the
   * refused Set has still counted; nothing else about the flag changes.
   */
  lemma SetRefusesRepeat(env: Env, s: St, h: nat, value: Value, pos: int)
    requires ArenaOk(s.flags) && h < |s.flags| && Wf(value)
    requires Claim(s.mutex, s.flags[h].mutexes, h).1.None?
    requires !HasSetter(s.flags[h].value) && s.flags[Resolve(s.flags, h)].aliasFor.None?
    requires var f := s.flags[Resolve(s.flags, h)];
      !IsCounter(f) && !IsFileReader(f) && !HasCallback(f) && f.count >= 1 && !IsRepeatable(f)
    ensures var t := Resolve(s.flags, h);
      TestOrSetOf(env, s, h, value, true, pos).1 == Some(NotRepeatable) &&
      TestOrSetOf(env, s, h, value, true, pos).0.flags[t] == s.flags[t].(count := s.flags[t].count + 1)
  {
  }

  /**
   * Whatever the value, a counter whose count fits its integer target
   * stores that count (under Set, the count already includes this Set).
   */
  lemma CounterStoresCount(env: Env, ru: Run, value: Value, pos: int)
    requires Wf(value) && ru.f.aliasFor.None?
    requires IsCounter(ru.f) && ru.f.value.PtrTo? && ru.f.value.x.I? && InRange(ru.f.value.x.k, ru.f.count)
    ensures ChainOf(env, ru, value, true, pos) == (ru.(f := ru.f.(value := PtrTo(I(ru.f.value.x.k, ru.f.count)))), None)
  {
    var f := ru.f;
    var x := I(f.value.x.k, f.count);
    assert StrConvOf(Plain(I(Int, f.count)), StrConvSep) == StrConvOf(PtrTo(x), f.listSeparator);
    StrConvFromStrScalar(x, f.value.x, f.listSeparator, env.setters);
  }

  /**
   * Set(nil) of a bool target stores the negation of its default, false
   * when the default is not a bool.
   */
  lemma NilTogglesBool(env: Env, ru: Run, pos: int)
    requires ru.f.aliasFor.None? && Ordinary(ru.f) && ru.f.value.PtrTo? && ru.f.value.x.B?
    requires DefaultOf(ru.f).Ok?
    ensures ChainOf(env, ru, Nil, true, pos) ==
      (ru.(f := ru.f.(value := PtrTo(B(DefaultOf(ru.f).value != Plain(B(true)))))), None)
  {
  }

  /**
   * Set(nil) of any other target stands for the default, and without a
   * default it is refused and writes nothing.
   */
  lemma NilTakesDefault(env: Env, ru: Run, doSet: bool, pos: int)
    requires ru.f.aliasFor.None? && Ordinary(ru.f) && !(ru.f.value.PtrTo? && ru.f.value.x.B?)
    requires DefaultOf(ru.f).Ok?
    ensures var d := DefaultOf(ru.f).value;
      d != Nil ==> ChainOf(env, ru, Nil, doSet, pos) == TestOrSetOnlyOf(env, ru, d, doSet)
    ensures var d := DefaultOf(ru.f).value;
      d == Nil ==> ChainOf(env, ru, Nil, doSet, pos).1 == Some(NilWithoutDefault) && ChainOf(env, ru, Nil, doSet, pos).0.f == ru.f
  {
  }

  /**
   * With enumerated defaults that the value coerces to without error, the
   * value is refused exactly when no item equals its coercion, and a
   * refused value leaves the flag as it was.
   */
  lemma EnumRefuses(env: Env, ru: Run, value: Value, doSet: bool)
    requires Wf(value) && ru.f.aliasFor.None? && ru.f.default.List?
    requires forall j :: 0 <= j < SliceLen(ru.f.default) ==> CoerceScalarAsWritten(ItemAt(ru.f.default, j), value).1 == None
    ensures var d := ru.f.default;
      DefaultsOf(env, ru, value, doSet).1 == Some(NotInDefaults) <==>
      !exists j :: 0 <= j < SliceLen(d) && CoerceScalarAsWritten(ItemAt(d, j), value).0 == ItemAt(d, j)
    ensures DefaultsOf(env, ru, value, doSet).1 == Some(NotInDefaults) ==> DefaultsOf(env, ru, value, doSet).0.f == ru.f
  {
    InDefaultsMeaning(ru.f, value);
  }

  /** A repeat of a flag that ignores repeats is accepted and changes nothing. */
  lemma RepeatIgnored(env: Env, ru: Run, value: Value, doSet: bool, pos: int)
    requires Wf(value) && ru.f.aliasFor.None?
    requires !IsCounter(ru.f) && !IsFileReader(ru.f) && !HasCallback(ru.f)
    requires ru.f.count > 1 && IsRepeatable(ru.f) && IgnoreRepeats(ru.f)
    ensures ChainOf(env, ru, value, doSet, pos) == (ru, None)
  {
  }

  /** Claim records only `h`: every claim afterwards was there before, or is `h`'s. */
  lemma {:induction false} ClaimBounded(mutex: map<string, Option<nat>>, names: seq<string>, h: nat)
    ensures var m := Claim(mutex, names, h).0;
      forall n :: n in m && m[n].Some? ==> m[n] == mutex[n] || m[n] == Some(h)
    decreases |names|
  {
    if names != [] {
      if names[0] in mutex {
        if mutex[names[0]].None? {
          ClaimBounded(mutex[names[0] := Some(h)], names[1..], h);
        }
      } else {
        ClaimBounded(mutex, names[1..], h);
      }
    }
  }

  /** Set and Test keep every handle of the registry inside the arena. */
  lemma SetKeepsOk(env: Env, s: St, h: nat, value: Value, doSet: bool, pos: int)
    requires StOk(s) && h < |s.flags| && Wf(value)
    ensures StOk(TestOrSetOf(env, s, h, value, doSet, pos).0)
  {
    ClaimBounded(s.mutex, s.flags[h].mutexes, h);
  }
}
