/**
 * flagset.go and the parse loop of parse.go as the Go code runs them: a
 * FlagSet object whose methods update its fields, loop over its groups
 * and mutexes, and shift arguments off its input deque.
 *
 * Every method is proved to leave the object in the state the function
 * of the same name in FlagState, Registration, SetOps or Parsing computes
 * from the state before the call (`State()` is the snapshot `St` of the
 * object), so the properties proved about those functions hold of these
 * methods. After Failf or a panic halted the run, nothing changes.
 */
module FlagSets {
  import opened Wrappers
  import opened Runes
  import opened Types
  import opened Trie
  import opened Flags
  import opened FlagState
  import opened SetOps
  import opened Registration
  import opened Parsing
  import opened Deque

  /** The largest of some lengths after one more. */
  lemma MaxOfSnoc(lens: seq<nat>, n: nat)
    ensures FlagState.MaxOf(lens + [n]) == if FlagState.MaxOf(lens) >= n then FlagState.MaxOf(lens) else n
  {
    assert (lens + [n])[..|lens|] == lens;
  }

  /** The FlagString lengths of some flags of the arena, in order. */
  function Lens(flags: seq<Flag>, hs: seq<nat>): (lens: seq<nat>)
    requires ArenaOk(flags) && forall k :: 0 <= k < |hs| ==> hs[k] < |flags|
  {
    seq(|hs|, k requires 0 <= k < |hs| => |FlagString(flags, hs[k])|)
  }

  /** The largest FlagString length after one more flag. */
  lemma LensMaxSnoc(flags: seq<Flag>, hs: seq<nat>, x: nat)
    requires ArenaOk(flags) && x < |flags| && forall k :: 0 <= k < |hs| ==> hs[k] < |flags|
    ensures forall k :: 0 <= k < |hs + [x]| ==> (hs + [x])[k] < |flags|
    ensures var n := |FlagString(flags, x)|; var m := FlagState.MaxOf(Lens(flags, hs));
      FlagState.MaxOf(Lens(flags, hs + [x])) == if m >= n then m else n
  {
    var a := Lens(flags, hs + [x]);
    var b := Lens(flags, hs) + [|FlagString(flags, x)|];
    assert |a| == |b|;
    forall k | 0 <= k < |a| ensures a[k] == b[k] {
      if k < |hs| {
        assert (hs + [x])[k] == hs[k];
      }
    }
    assert a == b;
    MaxOfSnoc(Lens(flags, hs), |FlagString(flags, x)|);
  }

  /** Lens of the listed flags is ListedLens. */
  lemma LensListed(s: St)
    requires ArenaOk(s.flags) && GroupsInArena(s)
    ensures Lens(s.flags, Listed(s.groups)) == ListedLens(s)
  {
  }

  /** Some items followed by a prefix of others, one longer. */
  lemma TakeSnoc<T>(xs: seq<T>, ys: seq<T>, k: nat)
    requires k < |ys|
    ensures xs + ys[..k + 1] == (xs + ys[..k]) + [ys[k]]
  {
  }

  lemma TakeNone<T>(xs: seq<T>, ys: seq<T>)
    ensures xs + ys[..0] == xs
  {
  }

  lemma TakeAll<T>(xs: seq<T>, ys: seq<T>)
    ensures xs + ys[..|ys|] == xs + ys
  {
  }

  /** The flags listed by the first `g + 1` groups: those of the first `g`, then those of group `g`. */
  lemma {:induction false} ListedSnoc(groups: seq<FlagGroup>, g: nat)
    requires g < |groups|
    ensures Listed(groups[..g + 1]) == Listed(groups[..g]) + groups[g].flagList
    decreases g
  {
    if g == 0 {
      assert groups[..1][1..] == [];
    } else {
      assert groups[..g + 1][1..] == groups[1..][..g];
      assert groups[..g][1..] == groups[1..][..g - 1];
      ListedSnoc(groups[1..], g - 1);
    }
  }

  /** Every flag that a group of a sound flag set lists is a flag of its arena. */
  lemma {:induction false} ListedInArena(groups: seq<FlagGroup>, n: nat)
    requires forall g, i :: 0 <= g < |groups| && 0 <= i < |groups[g].flagList| ==> groups[g].flagList[i] < n
    ensures forall k :: 0 <= k < |Listed(groups)| ==> Listed(groups)[k] < n
    decreases |groups|
  {
    if groups != [] {
      ListedInArena(groups[1..], n);
      forall k | 0 <= k < |Listed(groups)| ensures Listed(groups)[k] < n {
        if k >= |groups[0].flagList| {
          assert Listed(groups)[k] == Listed(groups[1..])[k - |groups[0].flagList|];
        } else {
          assert Listed(groups)[k] == groups[0].flagList[k];
        }
      }
    }
  }

  /** Flag.Set and Flag.Test of a flag set in its environment are testOrSet. */
  lemma SetOfIs(env: Env, s: St, h: nat, v: Value, d: bool, p: int)
    requires ArenaOk(s.flags) && h < |s.flags| && Wf(v)
    ensures SetOf(env)(s, h, v, d, p) == TestOrSetOf(env, s, h, v, d, p)
  {
  }

  /** One more Set with nil of a cluster's flags. */
  lemma NilSetsStep(tos: Setter, s0: St, flags: string, i: nat, pos: int)
    requires SetterOk(tos) && StOk(s0) && 0 < i <= KnownUpTo(s0, flags, 0)
    ensures ShortOf(s0, flags[i - 1]).Some? && ShortOf(s0, flags[i - 1]).value < |s0.flags|
    ensures NilSets(tos, s0, flags, i, pos) ==
      SetOrFailOf(tos, NilSets(tos, s0, flags, i - 1, pos), ShortOf(s0, flags[i - 1]).value, Nil, pos, "failed to set with nil")
  {
    KnownBefore(s0, flags, 0, i - 1);
    ShortInArena(s0, RuneOf(flags[i - 1]));
  }

  /** A cluster whose every character names a flag: the Sets with nil of all but the last, which is returned. */
  lemma ClusterAllKnown(tos: Setter, s0: St, flags: string, i: nat, param: string, isNumber: bool, pos: int)
    requires SetterOk(tos) && StOk(s0) && i == |flags| == KnownUpTo(s0, flags, 0)
    ensures ClusterOf(tos, s0, flags, param, isNumber, pos).0 == NilSets(tos, s0, flags, if i == 0 then 0 else i - 1, pos)
    ensures ClusterOf(tos, s0, flags, param, isNumber, pos).1 ==
      if NilSets(tos, s0, flags, if i == 0 then 0 else i - 1, pos).halt.Some? then None
      else if i == 0 then None else ShortOf(s0, flags[i - 1])
  {
  }

  /** A cluster whose character at `k` is the first to name no flag. */
  lemma ClusterMissed(tos: Setter, s0: St, flags: string, k: nat, param: string, isNumber: bool, pos: int)
    requires SetterOk(tos) && StOk(s0) && k < |flags| && KnownUpTo(s0, flags, 0) == k
    ensures var m := NilSets(tos, s0, flags, if k == 0 then 0 else k - 1, pos);
      ClusterOf(tos, s0, flags, param, isNumber, pos) ==
        (if m.halt.Some? then m else MissOf(tos, s0, m, flags, k, param, isNumber, pos), None)
  {
  }

  /** Under the -NUM idiom, a cluster that misses goes as a whole to the -NUM flag. */
  lemma MissNum(tos: Setter, s: St, m: St, flags: string, k: nat, param: string, isNumber: bool, pos: int)
    requires SetterOk(tos) && StOk(s) && StOk(m) && SameLookups(m, s) && k < |flags| && k == KnownUpTo(s, flags, 0)
    requires isNumber && param == "" && NumFlagOf(s).Some?
    ensures NumFlagOf(s).value < |m.flags| && Wf(Text(flags))
    ensures MissOf(tos, s, m, flags, k, param, isNumber, pos) ==
      SetOrFailOf(tos, m, NumFlagOf(s).value, Text(flags), pos, "failed to set (-NUM idiom)")
  {
    TextWf(flags);
  }

  /** Otherwise the rest of the cluster is the option-argument of the flag before `k`, if there is one. */
  lemma MissArg(tos: Setter, s: St, m: St, flags: string, k: nat, param: string, isNumber: bool, pos: int)
    requires SetterOk(tos) && StOk(s) && StOk(m) && SameLookups(m, s) && k < |flags| && k == KnownUpTo(s, flags, 0)
    requires !(isNumber && param == "" && NumFlagOf(s).Some?)
    ensures k > 0 ==> ShortOf(s, flags[k - 1]).Some? && ShortOf(s, flags[k - 1]).value < |m.flags|
    ensures k == 0 ==> MissOf(tos, s, m, flags, k, param, isNumber, pos) == PanicOf(m, "nil pointer dereference")
    ensures k > 0 ==> (Wf(Text(OptArg(flags, k, param))) && MissOf(tos, s, m, flags, k, param, isNumber, pos) ==
      SetOrFailOf(tos, m, ShortOf(s, flags[k - 1]).value, Text(OptArg(flags, k, param)), pos, "failed to set"))
  {
    TextWf(OptArg(flags, k, param));
    if k > 0 {
      KnownBefore(s, flags, 0, k - 1);
    }
  }

  class FlagSet {
    var flags: seq<Flag>
    var groups: seq<FlagGroup>
    var groupIndex: int
    var longTrie: Node<nat>
    var shortDict: map<Rune, nat>
    var hasHyphenNumIdiom: bool
    var hasNumberShorts: bool
    const InputArgs: Deque<string>
    const OutputArgs: Deque<string>
    var onFail: FailOption
    var failExitCode: int
    var mutex: map<string, Option<nat>>
    var errors: seq<string>
    var halt: Option<Halt>
    /** The package switches, the SetValue implementations, the callbacks and the files. */
    const env: Env

    /** The flag set as a value. */
    function State(): St
      reads this, InputArgs, OutputArgs
    {
      St(flags, groups, groupIndex, longTrie, shortDict, hasHyphenNumIdiom, hasNumberShorts,
         InputArgs.Items, OutputArgs.Items, onFail, failExitCode, mutex, errors, halt)
    }

    /** The two deques are distinct objects, and every handle the registry holds names a flag. */
    ghost predicate Valid()
      reads this, InputArgs, OutputArgs
    {
      InputArgs != OutputArgs && StOk(State())
    }

    /** Stores the registry fields of a snapshot whose deques the flag set already holds. */
    method Become(s: St)
      requires s.input == InputArgs.Items && s.output == OutputArgs.Items
      modifies this
      ensures State() == s
    {
      SetRegistry(s);
      SetRun(s);
    }

    /** The fields that name the flags. */
    method SetRegistry(s: St)
      modifies this
      ensures State() == old(State()).(flags := s.flags, groups := s.groups, groupIndex := s.groupIndex,
        longTrie := s.longTrie, shortDict := s.shortDict, hasHyphenNumIdiom := s.hasHyphenNumIdiom,
        hasNumberShorts := s.hasNumberShorts)
    {
      flags, groups, groupIndex, longTrie, shortDict := s.flags, s.groups, s.groupIndex, s.longTrie, s.shortDict;
      hasHyphenNumIdiom, hasNumberShorts := s.hasHyphenNumIdiom, s.hasNumberShorts;
    }

    /** The fields of the run: failure handling, mutexes, messages, and how it ended. */
    method SetRun(s: St)
      modifies this
      ensures State() == old(State()).(onFail := s.onFail, failExitCode := s.failExitCode, mutex := s.mutex,
        errors := s.errors, halt := s.halt)
    {
      onFail, failExitCode, mutex, errors, halt := s.onFail, s.failExitCode, s.mutex, s.errors, s.halt;
    }

    // -------------------------------------------------------------------
    // Creation

    /** NewFlagSet: one group "Options", empty deques, then the options in order. */
    constructor (env: Env, opts: seq<FlagSetOption>)
      ensures Valid() && fresh(InputArgs) && fresh(OutputArgs) && this.env == env
      ensures State() == ApplySetOptionsOf(NewFlagSetOf(), opts)
    {
      var s := NewFlagSetOf();
      this.env := env;
      flags, groups, groupIndex, longTrie, shortDict := s.flags, s.groups, s.groupIndex, s.longTrie, s.shortDict;
      hasHyphenNumIdiom, hasNumberShorts := s.hasHyphenNumIdiom, s.hasNumberShorts;
      onFail, failExitCode, mutex, errors, halt := s.onFail, s.failExitCode, s.mutex, s.errors, s.halt;
      InputArgs := new Deque<string>("", []);
      OutputArgs := new Deque<string>("", []);
      new;
      var i := 0;
      while i < |opts|
        invariant 0 <= i <= |opts| && Valid()
        invariant ApplySetOptionsOf(State(), opts[i..]) == ApplySetOptionsOf(s, opts)
      {
        assert opts[i..] == [opts[i]] + opts[i + 1..];
        ApplyOption(opts[i]);
        i := i + 1;
      }
      assert opts[i..] == [];
    }

    /** A FlagSetOption: the first group's title, or one more Failf bit. */
    method ApplyOption(opt: FlagSetOption)
      requires Valid()
      modifies this
      ensures Valid() && State() == ApplySetOption(old(State()), opt)
    {
      match opt
      case WithGroupTitle(title) => groups := groups[0 := groups[0].(title := title)];
      case WithPanicOnFail => onFail := onFail | FailPanic;
      case WithContinueOnFail => onFail := onFail | FailContinue;
      case WithSilentFail => onFail := onFail | FailSilent;
    }

    // -------------------------------------------------------------------
    // Failures

    /** Failf: prints unless silent, then returns under Continue, panics under Panic, and exits otherwise. */
    method Failf(msg: string)
      modifies this
      ensures State() == FailfOf(old(State()), msg)
    {
      if halt.Some? {
        return;
      }
      if !TstSilent(onFail) {
        errors := errors + [msg];
      }
      if TstContinue(onFail) {
        return;
      }
      if TstPanic(onFail) {
        halt := Some(Panicked(msg));
      } else {
        halt := Some(Exited(failExitCode));
      }
    }

    /** A panic: the run stops. */
    method Panic(why: string)
      modifies this
      ensures State() == PanicOf(old(State()), why)
    {
      if halt.None? {
        halt := Some(Panicked(why));
      }
    }

    // -------------------------------------------------------------------
    // Groups

    /** NewFlagGroup: appends an empty titled group, makes it current and returns its index. */
    method NewFlagGroup(title: string) returns (g: nat)
      requires Valid()
      modifies this
      ensures Valid() && State() == NewFlagGroupOf(old(State()), title)
      ensures g == |old(groups)| && groups[g] == FlagGroup(title, [])
    {
      groups := groups + [FlagGroup(title, [])];
      groupIndex := |groups| - 1;
      g := groupIndex;
    }

    /** The package-level Group: renames the only group while no flag exists, and starts a new one otherwise. */
    method StartGroup(title: string)
      requires Valid()
      modifies this
      ensures Valid() && State() == StartGroupOf(old(State()), title)
    {
      var has := HasFlags();
      if |groups| == 1 && !has {
        groups := [groups[0].(title := title)];
        return;
      }
      var _ := NewFlagGroup(title);
    }

    /** HasFlags: the flags of the groups are counted, and some exist. */
    method HasFlags() returns (b: bool)
      ensures b == HasFlagsOf(State())
    {
      var n := 0;
      var i := 0;
      while i < |groups|
        invariant 0 <= i <= |groups|
        invariant n == TotalFlags(groups[..i])
      {
        TotalFlagsSnoc(groups, i);
        n := n + |groups[i].flagList|;
        i := i + 1;
      }
      assert groups[..i] == groups;
      b := n > 0;
    }

    // -------------------------------------------------------------------
    // Lookup

    /** LookupShort: NoShort only under the -NUM idiom, any other rune in the short map. */
    method LookupShort(r: Rune) returns (f: Option<nat>)
      ensures f == LookupShortOf(State(), r)
    {
      if r == NoShort {
        if hasHyphenNumIdiom && NoShort in shortDict {
          return Some(shortDict[NoShort]);
        }
        return None;
      }
      if r in shortDict {
        return Some(shortDict[r]);
      }
      return None;
    }

    /** LookupLong: a one-rune name is tried as a short first; otherwise the trie answers. */
    method LookupLong(long: string) returns (f: Option<nat>)
      ensures f == LookupLongOf(State(), long)
    {
      var (r, tail) := FirstRune(long);
      if |tail| == 0 {
        f := LookupShort(r);
        if f.Some? {
          return;
        }
      }
      f := Get(longTrie, long);
    }

    /** Lookup: a string as a long, a rune as a short, and nothing else. */
    method Lookup(item: LookupItem) returns (f: Option<nat>)
      ensures f == LookupOf(State(), item)
    {
      match item
      case LongItem(long) => f := LookupLong(long);
      case ShortItem(short) => f := LookupShort(short);
      case OtherItem => f := None;
    }

    // -------------------------------------------------------------------
    // Registration

    /**
     * AddFlag of the flag with handle `h` (None for a nil flag): the pair
     * check, then the long name into the trie, then AddShort.
     */
    method AddFlag(h: Option<nat>) returns (err: Option<AddError>)
      requires 0 <= groupIndex < |groups| && (h.Some? ==> h.value < |flags|)
      modifies this
      ensures (State(), err) == AddFlagOf(env.cfg, old(State()), h)
    {
      if h.None? {
        return Some(NilFlag);
      }
      var f := flags[h.value];
      var v := IsValidPair(env.cfg, f.short, f.long);
      if v.Panic? {
        Panic(v.why);
        return None;
      }
      if !v.value {
        return Some(InvalidPair);
      }
      if f.long != NoLong {
        var a := Add(longTrie, f.long, h.value);
        longTrie := a.trie;
        if a.duplicate {
          return Some(DuplicateLong);
        }
      }
      err := AddShort(h.value);
    }

    /**
     * The short half of AddFlag: a short known already, or a digit short
     * beside -NUM, is refused; the short map takes the flag (NoShort only
     * for -NUM); a second -NUM, or -NUM beside digit shorts, is refused;
     * otherwise the flag joins the current group.
     */
    method AddShort(h: nat) returns (err: Option<AddError>)
      requires 0 <= groupIndex < |groups| && h < |flags|
      modifies this
      ensures (State(), err) == AddShortOf(old(State()), h)
    {
      var f := flags[h];
      if f.short != NoShort && f.short in shortDict {
        return Some(DuplicateShort);
      }
      if IsNumberRune(f.short) && hasHyphenNumIdiom {
        return Some(DigitWithHyphenNum);
      }
      hasNumberShorts := hasNumberShorts || IsNumberRune(f.short);
      if f.short != NoShort || f.long == NoLong {
        shortDict := shortDict[f.short := h];
      }
      if IsHyphenNum(f) && hasHyphenNumIdiom {
        return Some(HyphenNumTwice);
      }
      if IsHyphenNum(f) && hasNumberShorts {
        return Some(HyphenNumWithDigits);
      }
      hasHyphenNumIdiom := hasHyphenNumIdiom || IsHyphenNum(f);
      var g := groups[groupIndex];
      groups := groups[groupIndex := g.(flagList := g.flagList + [h])];
      err := None;
    }

    /**
     * Var: NewFlag, whose refusal panics, then Build.
     */
    method Var(value: Value, short: Rune, long: string, usage: string, opts: seq<FlagOption>)
      requires Valid()
      modifies this
      ensures Valid() && State() == VarOf(env, old(State()), value, short, long, usage, opts)
    {
      FailKeepsOk(State());
      if halt.Some? {
        return;
      }
      var c := NewFlagOf(env.cfg, value, short, long, usage);
      if c.Panic? || c.value.None? {
        Panic(if c.Panic? then c.why else "failed to create new flag");
        return;
      }
      Build(c.value.value, opts);
    }

    /**
     * Var past NewFlag: the flag joins the arena, its options are applied
     * in order, and unless one of them halted the run, AddFlag follows,
     * whose refusal panics.
     */
    method Build(f: Flag, opts: seq<FlagOption>)
      requires Shaped(State()) && f.aliasFor.None?
      modifies this
      ensures State() == BuildOf(env, old(State()), f, opts)
    {
      ghost var s := State();
      var h := |flags|;
      flags := flags + [f];
      assert State() == s.(flags := s.flags + [f]);
      ApplyOptions(h, opts);
      if halt.Some? {
        return;
      }
      MustAdd(h, "failed to add new flag");
    }

    /** NewFlag's options, one after another, on the flag with handle `h`, until one halts the run. */
    method ApplyOptions(h: nat, opts: seq<FlagOption>)
      requires Building(State(), h)
      modifies this
      ensures State() == ApplyOptionsOf(env, old(State()), h, opts)
    {
      var i := 0;
      while i < |opts| && halt.None?
        invariant 0 <= i <= |opts| && Building(State(), h)
        invariant ApplyOptionsOf(env, State(), h, opts[i..]) == ApplyOptionsOf(env, old(State()), h, opts)
      {
        assert opts[i..][0] == opts[i] && opts[i..][1..] == opts[i + 1..];
        Become(ApplyOptionOf(env, State(), h, opts[i]));
        i := i + 1;
      }
    }

    /** AddFlag of a flag of the arena, where a refusal panics. */
    method MustAdd(h: nat, why: string)
      requires Shaped(State()) && h < |flags|
      modifies this
      ensures State() == MustAddOf(env.cfg, old(State()), h, why)
    {
      var err := AddFlag(Some(h));
      if err.Some? {
        Panic(why);
      }
    }

    /**
     * Equ: an alias of the flag the long name `equiv` finds, carrying the
     * option-argument `value`; an unknown name panics, and a refused
     * AddFlag goes to Failf.
     */
    method Equ(short: Rune, long: string, equiv: string, value: string)
      requires Valid()
      modifies this
      ensures State() == EquOf(env.cfg, old(State()), short, long, equiv, value)
    {
      if halt.Some? {
        return;
      }
      var t := LookupLong(equiv);
      if t.None? {
        Panic("flag not found in equivalent lookup");
        return;
      }
      LookupInArena(State(), LongItem(equiv));
      var a := NewAliasOf(env.cfg, flags, t.value, short, long);
      if a.Panic? {
        Panic(a.why);
        return;
      }
      var alias := EquivAlias(env.cfg, flags, t.value, short, long, value);
      var err := AddAlias(alias);
      if err.Some? {
        Failf("error adding alias");
      }
    }

    /** AddFlag of an alias, which joins the arena last. */
    method AddAlias(a: Flag) returns (err: Option<AddError>)
      requires Shaped(State()) && a.aliasFor.Some? && a.aliasFor.value < |flags|
      modifies this
      ensures (State(), err) == AddAliasOf(env.cfg, old(State()), a)
    {
      flags := flags + [a];
      err := AddFlag(Some(|flags| - 1));
    }

    // -------------------------------------------------------------------
    // Help text and Reset

    /** FlagStringMaxLen: the longest FlagString over the flags of every group. */
    method FlagStringMaxLen() returns (maxLen: nat)
      requires Valid()
      ensures GroupsInArena(State()) && maxLen == FlagStringMaxLenOf(State())
    {
      maxLen := 0;
      var g := 0;
      while g < |groups|
        invariant 0 <= g <= |groups|
        invariant forall j :: 0 <= j < |Listed(groups[..g])| ==> Listed(groups[..g])[j] < |flags|
        invariant maxLen == FlagState.MaxOf(Lens(flags, Listed(groups[..g])))
      {
        ListedSnoc(groups, g);
        maxLen := MaxLenOver(groups[g].flagList, maxLen, Listed(groups[..g]));
        g := g + 1;
      }
      assert groups[..g] == groups;
      LensListed(State());
    }

    /** The inner loop of FlagStringMaxLen, over the flags of one group, after those `seen` before it. */
    method MaxLenOver(list: seq<nat>, maxLen0: nat, ghost seen: seq<nat>) returns (maxLen: nat)
      requires ArenaOk(flags) && forall j :: 0 <= j < |seen| ==> seen[j] < |flags|
      requires forall j :: 0 <= j < |list| ==> list[j] < |flags|
      requires maxLen0 == FlagState.MaxOf(Lens(flags, seen))
      ensures forall j :: 0 <= j < |seen + list| ==> (seen + list)[j] < |flags|
      ensures maxLen == FlagState.MaxOf(Lens(flags, seen + list))
    {
      maxLen := maxLen0;
      ghost var cur: seq<nat> := seen;
      TakeNone(seen, list);
      var k := 0;
      while k < |list|
        invariant 0 <= k <= |list| && cur == seen + list[..k]
        invariant forall j :: 0 <= j < |cur| ==> cur[j] < |flags|
        invariant maxLen == FlagState.MaxOf(Lens(flags, cur))
      {
        var n: nat := |FlagString(flags, list[k])|;
        LensMaxSnoc(flags, cur, list[k]);
        TakeSnoc(seen, list, k);
        maxLen := if maxLen >= n then maxLen else n;
        cur := cur + [list[k]];
        k := k + 1;
      }
      TakeAll(seen, list);
    }

    /**
     * Reset: both deques are cleared, every mutex is released, and every
     * flag a group lists gets a count of zero.
     */
    method Reset()
      requires Valid()
      modifies this, InputArgs, OutputArgs
      ensures Valid() && State() == ResetOf(old(State()))
    {
      ResetKeepsOk(State());
      InputArgs.Clear();
      OutputArgs.Clear();
      var m := ReleasedMutexes();
      var fl := ZeroedCounts();
      mutex, flags := m, fl;
    }

    /** The mutexes of Reset: every name the flag set knows, held by nobody. */
    method ReleasedMutexes() returns (m: map<string, Option<nat>>)
      ensures m == ResetOf(State()).mutex
    {
      m := mutex;
      var names := m.Keys;
      while names != {}
        invariant names <= m.Keys && m.Keys == mutex.Keys
        invariant forall n :: n in m ==> m[n] == if n in names then mutex[n] else None
        decreases names
      {
        var n :| n in names;
        m := m[n := None];
        names := names - {n};
      }
    }

    /** The flags of Reset: every flag some group lists with a count of zero. */
    method ZeroedCounts() returns (fl: seq<Flag>)
      requires Valid()
      ensures fl == ResetOf(State()).flags
    {
      fl := flags;
      ghost var done: seq<nat> := [];
      assert forall g, i :: 0 <= g < |groups| && 0 <= i < |groups[g].flagList| ==> groups[g].flagList[i] < |flags|;
      var g := 0;
      while g < |groups|
        invariant 0 <= g <= |groups| && |fl| == |flags| && done == Listed(groups[..g])
        invariant forall i :: 0 <= i < |flags| ==> fl[i] == if i in done then flags[i].(count := 0) else flags[i]
      {
        var list := groups[g].flagList;
        var k := 0;
        while k < |list|
          invariant 0 <= k <= |list| && |fl| == |flags| && done == Listed(groups[..g]) + list[..k]
          invariant forall i :: 0 <= i < |flags| ==> fl[i] == if i in done then flags[i].(count := 0) else flags[i]
        {
          TakeSnoc(Listed(groups[..g]), list, k);
          fl := fl[list[k] := fl[list[k]].(count := 0)];
          done := done + [list[k]];
          k := k + 1;
        }
        TakeAll(Listed(groups[..g]), list);
        ListedSnoc(groups, g);
        g := g + 1;
      }
      assert groups[..g] == groups;
      ghost var r := ResetOf(State());
      assert forall i :: 0 <= i < |flags| ==> fl[i] == r.flags[i];
    }

    // -------------------------------------------------------------------
    // Set and Test during parsing

    /**
     * MutexCollides of flag `h`: every mutex of the flag that the flag set
     * knows is claimed for it, in turn, until one is found held; the
     * holder is returned, and the claims made before it stay.
     */
    method MutexCollides(h: nat) returns (prev: Option<nat>)
      requires h < |flags|
      modifies this
      ensures (State(), prev) == MutexCollidesOf(old(State()), h)
    {
      var names := flags[h].mutexes;
      var m := mutex;
      var i := 0;
      while i < |names|
        invariant 0 <= i <= |names| && Claim(m, names[i..], h) == Claim(mutex, names, h)
      {
        assert names[i..][0] == names[i] && names[i..][1..] == names[i + 1..];
        var n := names[i];
        if n in m {
          if m[n].Some? {
            mutex := m;
            return m[n];
          }
          m := m[n := Some(h)];
        }
        i := i + 1;
      }
      mutex := m;
      return None;
    }

    /**
     * testOrSet of flag `h`: a mutex collision goes to Failf and is
     * refused; otherwise the value goes to the flag (Set when `doSet`,
     * Test otherwise).
     */
    method TestOrSet(h: nat, value: Value, doSet: bool, pos: int) returns (err: Option<SetError>)
      requires ArenaOk(flags) && h < |flags| && Wf(value)
      modifies this
      ensures (State(), err) == TestOrSetOf(env, old(State()), h, value, doSet, pos)
    {
      var s0 := State();
      var prev := MutexCollides(h);
      if prev.Some? {
        Failf("flag conflicts with previously given flag");
        return Some(MutexCollision);
      }
      var r := AfterClaimOf(env, s0, mutex, h, value, doSet, pos);
      Become(r.0);
      err := r.1;
    }

    /** Set of flag `h`, where a refusal goes to Failf with `msg`. */
    method SetOrFail(h: nat, value: Value, pos: int, msg: string)
      requires Valid() && h < |flags| && Wf(value)
      modifies this
      ensures SetterOk(SetOf(env)) && Valid() && State() == SetOrFailOf(SetOf(env), old(State()), h, value, pos, msg)
    {
      SetOfOk(env);
      if halt.Some? {
        return;
      }
      SetOfIs(env, State(), h, value, true, pos);
      var err := TestOrSet(h, value, true, pos);
      if err.Some? {
        Failf(msg);
      }
    }

    // -------------------------------------------------------------------
    // The parse loop

    /** stopParsing: the input (without its first argument when `shift`) goes to the output. */
    method StopParsing(shift: bool)
      requires Valid()
      modifies InputArgs, OutputArgs
      ensures Valid() && State() == StopParsingOf(old(State()), shift)
    {
      if shift {
        var _, _ := InputArgs.Shift();
      }
      OutputArgs.Append(InputArgs.Items);
      InputArgs.Clear();
    }

    /** The Shift of an option-argument taken from the input. */
    method Consume()
      requires Valid()
      modifies InputArgs
      ensures Valid() && State() == ConsumeOf(old(State()))
    {
      if halt.Some? {
        return;
      }
      var _, _ := InputArgs.Shift();
    }

    /**
     * disambiguateCluster: each character is looked up in turn; a flag
     * found before another is set with nil; the first character that
     * names no flag makes the rest the option-argument of the flag before
     * it (or, for a number, the cluster goes to the -NUM flag); when every
     * character names a flag the last is returned.
     */
    method DisambiguateCluster(flags: string, param: string, isNumber: bool, pos: int) returns (flag: Option<nat>)
      requires Valid()
      modifies this
      ensures SetterOk(SetOf(env)) && Valid() && (State(), flag) == ClusterOf(SetOf(env), old(State()), flags, param, isNumber, pos)
    {
      SetOfOk(env);
      ghost var s0 := State();
      var curr: Option<nat> := None;
      var i := 0;
      while i < |flags|
        invariant 0 <= i <= KnownUpTo(s0, flags, 0)
        invariant curr == if i == 0 then None else ShortOf(s0, flags[i - 1])
        invariant Valid() && State() == NilSets(SetOf(env), s0, flags, if i == 0 then 0 else i - 1, pos)
      {
        var stop;
        curr, stop := ClusterStep(s0, flags, i, curr, param, isNumber, pos);
        if stop {
          return None;
        }
        i := i + 1;
      }
      ClusterAllKnown(SetOf(env), s0, flags, i, param, isNumber, pos);
      if halt.Some? {
        return None;
      }
      return curr;
    }

    /**
     * The character at `i` of a cluster, looked up: when it names a flag,
     * the flag of the character before it is Set with nil; when it names
     * none, the cluster ends there (`stop`).
     */
    method ClusterStep(ghost s0: St, flags: string, i: nat, prev: Option<nat>, param: string, isNumber: bool, pos: int)
      returns (curr: Option<nat>, stop: bool)
      requires Valid() && StOk(s0) && i < |flags| && i <= KnownUpTo(s0, flags, 0)
      requires prev == if i == 0 then None else ShortOf(s0, flags[i - 1])
      requires SetterOk(SetOf(env)) && State() == NilSets(SetOf(env), s0, flags, if i == 0 then 0 else i - 1, pos)
      modifies this
      ensures Valid()
      ensures stop ==> (State(), None) == ClusterOf(SetOf(env), s0, flags, param, isNumber, pos)
      ensures !stop ==> (curr == ShortOf(s0, flags[i]) && i + 1 <= KnownUpTo(s0, flags, 0) &&
        State() == NilSets(SetOf(env), s0, flags, i, pos))
    {
      KnownStep(s0, flags, i);
      curr := LookupShort(RuneOf(flags[i]));
      if curr.None? {
        ClusterMissed(SetOf(env), s0, flags, i, param, isNumber, pos);
        if halt.None? {
          ClusterMiss(s0, flags, i, prev, param, isNumber, pos);
        }
        return curr, true;
      }
      if i > 0 {
        SetPrevNil(s0, flags, i, prev, pos);
      }
      return curr, false;
    }

    /** The flag `prev` of the character before the one at `i`, which names a flag too, Set with nil. */
    method SetPrevNil(ghost s0: St, flags: string, i: nat, prev: Option<nat>, pos: int)
      requires Valid() && StOk(s0) && 0 < i < KnownUpTo(s0, flags, 0) && prev == ShortOf(s0, flags[i - 1])
      requires SetterOk(SetOf(env)) && State() == NilSets(SetOf(env), s0, flags, i - 1, pos)
      modifies this
      ensures Valid() && State() == NilSets(SetOf(env), s0, flags, i, pos)
    {
      NilSetsStep(SetOf(env), s0, flags, i, pos);
      SetOrFail(prev.value, Nil, pos, "failed to set with nil");
    }

    /** The first character of a cluster, at `i`, that names no flag, once the run got there unhalted. */
    method ClusterMiss(ghost s0: St, flags: string, i: nat, prev: Option<nat>, param: string, isNumber: bool, pos: int)
      requires Valid() && halt.None? && StOk(s0) && SameLookups(State(), s0) && i < |flags| && KnownUpTo(s0, flags, 0) == i
      requires prev == if i == 0 then None else ShortOf(s0, flags[i - 1])
      modifies this
      ensures SetterOk(SetOf(env)) && Valid() && State() == MissOf(SetOf(env), s0, old(State()), flags, i, param, isNumber, pos)
    {
      SetOfOk(env);
      if isNumber && param == "" {
        var num := LookupShort(NoShort);
        if num.Some? {
          MissNum(SetOf(env), s0, State(), flags, i, param, isNumber, pos);
          TextWf(flags);
          SetOrFail(num.value, Text(flags), pos, "failed to set (-NUM idiom)");
          return;
        }
      }
      MissArg(SetOf(env), s0, State(), flags, i, param, isNumber, pos);
      OptArgMiss(flags, i, prev, param, pos);
    }

    /**
     * The rest of a cluster from `i` on, with "=" and the parameter if
     * any, as the option-argument of flag `prev`; with no flag before the
     * first character Set is called on nil and panics.
     */
    method OptArgMiss(flags: string, i: nat, prev: Option<nat>, param: string, pos: int)
      requires Valid() && i <= |flags| && (prev.Some? ==> prev.value < |this.flags|)
      modifies this
      ensures SetterOk(SetOf(env)) && Valid()
      ensures prev.None? ==> State() == PanicOf(old(State()), "nil pointer dereference")
      ensures prev.Some? ==> State() == SetOrFailOf(SetOf(env), old(State()), prev.value, Text(OptArg(flags, i, param)), pos, "failed to set")
    {
      SetOfOk(env);
      if prev.None? {
        Panic("nil pointer dereference");
        return;
      }
      TextWf(OptArg(flags, i, param));
      SetOrFail(prev.value, Text(OptArg(flags, i, param)), pos, "failed to set");
    }

    /**
     * One arg of the parse loop, classified as `p`, after its Shift at
     * position `i`: an operand is pushed to the output; a cluster is
     * disambiguated; anything else is looked up by name.
     */
    method Arg(p: Parsed, i: int) returns (pos: int, done: bool)
      requires Valid() && halt.None?
      modifies this, InputArgs, OutputArgs
      ensures SetterOk(SetOf(env)) && Valid() && Pass(State(), pos, done) == ArgOf(env.cfg, SetOf(env), old(State()), p, i)
    {
      SetOfOk(env);
      if !TstFlagBit(p.mask) {
        OutputArgs.Push(p.param);
        if env.cfg.posixOperandStop {
          StopParsing(false);
          return i, true;
        }
        return i, false;
      }
      if TstClusterBit(p.mask) {
        var flag := DisambiguateCluster(p.flags, p.param, TstNumberBit(p.mask), i);
        if flag.None? {
          return i, false;
        }
        pos, done := AfterFlag(flag.value, p.mask, p.param, i);
        return;
      }
      pos, done := Named(p, i);
    }

    /** A flag argument that is no cluster, found by its name or not found. */
    method Named(p: Parsed, i: int) returns (pos: int, done: bool)
      requires Valid() && halt.None?
      modifies this, InputArgs, OutputArgs
      ensures SetterOk(SetOf(env)) && Valid() && Pass(State(), pos, done) == NamedOf(env.cfg, SetOf(env), old(State()), p, i)
    {
      SetOfOk(env);
      var f := LookupLong(p.flags);
      LookupInArena(State(), LongItem(p.flags));
      if f.Some? {
        pos, done := AfterFlag(f.value, p.mask, p.param, i);
        return;
      }
      Unknown(p, i);
      return i, false;
    }

    /** A name no flag answers to: a number goes to the -NUM flag, anything else to Failf. */
    method Unknown(p: Parsed, i: int)
      requires Valid() && halt.None?
      modifies this
      ensures SetterOk(SetOf(env)) && Valid() && State() == UnknownOf(SetOf(env), old(State()), p, i)
    {
      SetOfOk(env);
      FailKeepsOk(State());
      if !TstNumberBit(p.mask) {
        Failf("flag not defined (NaN)");
        return;
      }
      var num := LookupShort(NoShort);
      if num.None? {
        Failf("flag '-NUM' not defined");
        return;
      }
      ShortInArena(State(), NoShort);
      TextWf(p.flags);
      SetOrFail(num.value, Text(p.flags), i, "failed to set -NUM flag");
    }

    /**
     * The flag `h` found: an attached parameter is Set; at the end of the
     * input the flag is Set with nil and parse returns; otherwise the next
     * argument is peeked at.
     */
    method AfterFlag(h: nat, am: ArgMask, param: string, i: int) returns (pos: int, done: bool)
      requires Valid() && halt.None? && h < |flags|
      modifies this, InputArgs, OutputArgs
      ensures SetterOk(SetOf(env)) && Valid() && Pass(State(), pos, done) == AfterFlagOf(env.cfg, SetOf(env), old(State()), h, am, param, i)
    {
      SetOfOk(env);
      if TstParamBit(am) {
        var v := if ShortOrCluster(am) && env.cfg.posixEquals then "=" + param else param;
        TextWf(v);
        SetOrFail(h, Text(v), i, "failed to set flag");
        return i, false;
      }
      var next, empty := InputArgs.Front();
      if empty {
        SetOrFail(h, Nil, i, "failed to set flag at EOL with no parameter");
        return i, true;
      }
      pos, done := Peek(h, ParseSingleArg(next), i);
    }

    /**
     * The next argument after flag `h`, peeked at and classified as `q`:
     * a "--" is handled by PeekDashes; another operand is Set on a flag
     * that is not a bool and shifted off when that succeeds; otherwise the
     * flag is Set with nil.
     */
    method Peek(h: nat, q: Parsed, i: int) returns (pos: int, done: bool)
      requires Valid() && halt.None? && h < |flags| && InputArgs.Items != []
      modifies this, InputArgs, OutputArgs
      ensures SetterOk(SetOf(env)) && Valid() && Pass(State(), pos, done) == PeekOf(env.cfg, SetOf(env), old(State()), h, q, i)
    {
      SetOfOk(env);
      if !TstFlagBit(q.mask) && IsDoubleHyphenArg(q.mask) {
        pos, done := PeekDashes(h, i);
        return;
      }
      if !TstFlagBit(q.mask) && !IsBool(flags[h]) {
        TextWf(q.param);
        SetOfIs(env, State(), h, Text(q.param), true, i);
        SetKeepsOk(env, State(), h, Text(q.param), true, i);
        var err := TestOrSet(h, Text(q.param), true, i);
        if err.None? {
          Consume();
          return i + 1, false;
        }
        return i, false;
      }
      SetOrFail(h, Nil, i, "failed to set flag with no parameter");
      return i, false;
    }

    /** A "--" after flag `h`: under GNU rules it ends parsing; under PosixDoubleHyphen it is Tested. */
    method PeekDashes(h: nat, i: int) returns (pos: int, done: bool)
      requires Valid() && halt.None? && h < |flags|
      modifies this, InputArgs, OutputArgs
      ensures SetterOk(SetOf(env)) && Valid() && Pass(State(), pos, done) == PeekDashesOf(env.cfg, SetOf(env), old(State()), h, i)
    {
      SetOfOk(env);
      if !env.cfg.posixDoubleHyphen {
        StopParsing(true);
        return i, true;
      }
      pos, done := TestDashes(h, i);
    }

    /** PosixDoubleHyphen: a "--" that Test accepts is Set and shifted off; otherwise parsing ends. */
    method TestDashes(h: nat, i: int) returns (pos: int, done: bool)
      requires Valid() && halt.None? && h < |flags|
      modifies this, InputArgs, OutputArgs
      ensures SetterOk(SetOf(env)) && Valid() && Pass(State(), pos, done) == TestDashesOf(SetOf(env), old(State()), h, i)
    {
      SetOfOk(env);
      TextWf("--");
      SetOfIs(env, State(), h, Text("--"), false, i);
      SetKeepsOk(env, State(), h, Text("--"), false, i);
      var err := TestOrSet(h, Text("--"), false, i);
      if halt.Some? {
        return i, true;
      }
      if err.Some? {
        StopParsing(true);
        return i, true;
      }
      SetOrFail(h, Text("--"), i, "failed to set flag with `--` after Test()");
      Consume();
      return i + 1, false;
    }

    /**
     * parse: arguments are shifted off the input one at a time, counting
     * positions from 1, until the input is exhausted or a pass returns;
     * it always returns nil.
     */
    method ParseArgs() returns (err: Option<SetError>)
      requires Valid()
      modifies this, InputArgs, OutputArgs
      ensures SetterOk(SetOf(env)) && Valid() && State() == ParseFrom(env.cfg, SetOf(env), old(State()), 0) && err == None
    {
      SetOfOk(env);
      var i := 0;
      var done := false;
      while !done
        invariant Valid()
        invariant done ==> State() == ParseFrom(env.cfg, SetOf(env), old(State()), 0)
        invariant !done ==> ParseFrom(env.cfg, SetOf(env), State(), i) == ParseFrom(env.cfg, SetOf(env), old(State()), 0)
        decreases !done, |InputArgs.Items|
      {
        i, done := Next(i);
      }
      return None;
    }

    /**
     * One turn of the parse loop after position `pos`: unless the run is
     * halted or the input exhausted, the next arg is shifted off and
     * handled; `done` when parse returns.
     */
    method Next(pos: int) returns (next: int, done: bool)
      requires Valid()
      modifies this, InputArgs, OutputArgs
      ensures SetterOk(SetOf(env)) && Valid()
      ensures done ==> State() == ParseFrom(env.cfg, SetOf(env), old(State()), pos)
      ensures !done ==> (|InputArgs.Items| < |old(InputArgs.Items)| &&
        ParseFrom(env.cfg, SetOf(env), State(), next) == ParseFrom(env.cfg, SetOf(env), old(State()), pos))
    {
      SetOfOk(env);
      if halt.Some? {
        return pos, true;
      }
      var arg, empty := InputArgs.Shift();
      if empty {
        return pos, true;
      }
      next, done := Arg(ParseSingleArg(arg), pos + 1);
    }

    /** Parse: the arguments become the input, and parse runs. */
    method Parse(args: seq<string>) returns (err: Option<SetError>)
      requires Valid()
      modifies this, InputArgs, OutputArgs
      ensures SetterOk(SetOf(env)) && Valid() && State() == ParseOf(env.cfg, SetOf(env), old(State()), args) && err == None
    {
      InputArgs.Init(args);
      err := ParseArgs();
    }
  }
}
