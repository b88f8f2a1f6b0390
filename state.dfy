/**
 * flagset.go: the registry of flags. A flag set owns its flags (here an
 * arena `flags`, indexed by handles), its help groups, the trie of long
 * names and the map of shorts, the argument deques the parser works on,
 * the mutex claim table and the failure policy.
 *
 * A snapshot of a flag set is the value `St`; this module defines the
 * operations of flagset.go on snapshots. The class FlagSets.FlagSet holds
 * the same state in fields and carries out these operations step by step.
 *
 * Failf prints unless the set is silent, and then either returns (with
 * Continue), panics or exits; a halted run is recorded in `halt` and
 * nothing changes it afterwards. Printed messages are recorded in
 * `errors`.
 */
module FlagState {
  import opened Wrappers
  import opened Runes
  import opened Types
  import opened Trie
  import opened Flags

  /** How a run stopped: os.Exit with a code, or a panic. */
  datatype Halt = Exited(code: int) | Panicked(why: string)

  /** What Failf does (an int8 of bits). */
  type FailOption = bv8

  const FailDefault: FailOption := 0x00
  const FailSilent: FailOption := 0x01
  const FailContinue: FailOption := 0x02
  const FailPanic: FailOption := 0x04

  predicate TstSilent(o: FailOption) { o & FailSilent != 0 }
  predicate TstContinue(o: FailOption) { o & FailContinue != 0 }
  predicate TstPanic(o: FailOption) { o & FailPanic != 0 }

  const DefaultFailExitCode: int := 2

  /** A titled group of flags for the help text, listing flag handles. */
  datatype FlagGroup = FlagGroup(title: string, flagList: seq<nat>)

  /** Whether the callback numbered `cb` succeeds for a value and an argument position. */
  type Callbacks = (nat, string, int) -> bool

  /** The lines of a named file, or None when it cannot be opened. */
  type Files = string -> Option<seq<string>>

  /**
   * What the flag set cannot see: the package switches, the SetValue
   * implementations, the callbacks and the file system.
   */
  datatype Env = Env(cfg: Config, setters: Accepts, callbacks: Callbacks, files: Files)

  /** A snapshot of a FlagSet. */
  datatype St = St(
    flags: seq<Flag>,
    groups: seq<FlagGroup>,
    groupIndex: int,
    longTrie: Node<nat>,
    shortDict: map<Rune, nat>,
    hasHyphenNumIdiom: bool,
    hasNumberShorts: bool,
    input: seq<string>,
    output: seq<string>,
    onFail: FailOption,
    failExitCode: int,
    mutex: map<string, Option<nat>>,
    errors: seq<string>,
    halt: Option<Halt>)

  /** Every handle the registry holds names a flag of the arena, and the current group exists. */
  ghost predicate StOk(s: St) {
    ArenaOk(s.flags) && 0 <= s.groupIndex < |s.groups| &&
    Trie.Valid(s.longTrie) &&
    (forall k :: Trie.Lookup(s.longTrie, k).Some? ==> Trie.Lookup(s.longTrie, k).value < |s.flags|) &&
    (forall r :: r in s.shortDict ==> s.shortDict[r] < |s.flags|) &&
    (forall g, i :: 0 <= g < |s.groups| && 0 <= i < |s.groups[g].flagList| ==> s.groups[g].flagList[i] < |s.flags|) &&
    (forall n :: n in s.mutex && s.mutex[n].Some? ==> s.mutex[n].value < |s.flags|)
  }

  /** The fields Failf and panics touch. */
  predicate SameRegistry(a: St, b: St) {
    a.flags == b.flags && a.groups == b.groups && a.groupIndex == b.groupIndex &&
    a.longTrie == b.longTrie && a.shortDict == b.shortDict &&
    a.hasHyphenNumIdiom == b.hasHyphenNumIdiom && a.hasNumberShorts == b.hasNumberShorts &&
    a.input == b.input && a.output == b.output && a.onFail == b.onFail &&
    a.failExitCode == b.failExitCode && a.mutex == b.mutex
  }

  // ---------------------------------------------------------------------
  // Creation and options of a flag set

  /** The options of NewFlagSet that the model keeps (the output writer is left out). */
  datatype FlagSetOption = WithGroupTitle(title: string) | WithPanicOnFail | WithContinueOnFail | WithSilentFail

  /** NewFlagSet without options: one group "Options", nothing registered, exit code 2. */
  function NewFlagSetOf(): (s: St)
    ensures StOk(s) && s.halt.None? && s.errors == []
    ensures s.groups == [FlagGroup("Options", [])] && s.groupIndex == 0
    ensures s.flags == [] && s.shortDict == map[] && s.mutex == map[] && s.input == [] && s.output == []
    ensures forall k :: Trie.Lookup(s.longTrie, k) == None
    ensures s.onFail == FailDefault && s.failExitCode == DefaultFailExitCode
  {
    St([], [FlagGroup("Options", [])], 0, NewTrie(), map[], false, false, [], [],
       FailDefault, DefaultFailExitCode, map[], [], None)
  }

  /** A flag-set option: a title for the first group, or one more Failf bit. */
  function ApplySetOption(s: St, opt: FlagSetOption): (r: St)
    requires |s.groups| > 0
    ensures |r.groups| == |s.groups| && r.flags == s.flags && r.halt == s.halt
    ensures opt.WithGroupTitle? ==> r.groups[0].title == opt.title && r.onFail == s.onFail
    ensures opt == WithPanicOnFail ==> TstPanic(r.onFail)
    ensures opt == WithContinueOnFail ==> TstContinue(r.onFail)
    ensures opt == WithSilentFail ==> TstSilent(r.onFail)
    ensures !opt.WithGroupTitle? ==> r == s.(onFail := r.onFail)
  {
    match opt
    case WithGroupTitle(title) => s.(groups := s.groups[0 := s.groups[0].(title := title)])
    case WithPanicOnFail => s.(onFail := s.onFail | FailPanic)
    case WithContinueOnFail => s.(onFail := s.onFail | FailContinue)
    case WithSilentFail => s.(onFail := s.onFail | FailSilent)
  }

  /** The options of NewFlagSet, applied in order. */
  function ApplySetOptionsOf(s: St, opts: seq<FlagSetOption>): (r: St)
    requires |s.groups| > 0
    ensures r.flags == s.flags && r.halt == s.halt && |r.groups| == |s.groups|
    ensures forall g :: 0 <= g < |s.groups| ==> r.groups[g].flagList == s.groups[g].flagList
    ensures r == s.(groups := r.groups, onFail := r.onFail)
    decreases |opts|
  {
    if opts == [] then s else ApplySetOptionsOf(ApplySetOption(s, opts[0]), opts[1..])
  }

  /**
   * The Failf bits of the options accumulate: an option once given is not
   * undone by a later one.
   */
  lemma {:induction false} SetOptionsAccumulate(s: St, opts: seq<FlagSetOption>)
    requires |s.groups| > 0
    ensures var r := ApplySetOptionsOf(s, opts);
      (TstSilent(s.onFail) || WithSilentFail in opts ==> TstSilent(r.onFail)) &&
      (TstContinue(s.onFail) || WithContinueOnFail in opts ==> TstContinue(r.onFail)) &&
      (TstPanic(s.onFail) || WithPanicOnFail in opts ==> TstPanic(r.onFail))
    decreases |opts|
  {
    if opts != [] {
      var s1 := ApplySetOption(s, opts[0]);
      SetOptionsAccumulate(s1, opts[1..]);
      assert opts == [opts[0]] + opts[1..];
      assert TstSilent(s.onFail) ==> TstSilent(s1.onFail);
      assert TstContinue(s.onFail) ==> TstContinue(s1.onFail);
      assert TstPanic(s.onFail) ==> TstPanic(s1.onFail);
    }
  }

  // ---------------------------------------------------------------------
  // Failures

  /**
   * Failf: prints the message unless silent; then returns with Continue,
   * panics with Panic, and otherwise exits with the failure exit code.
   * A halted run is left as it is.
   */
  function FailfOf(s: St, msg: string): (r: St)
    ensures s.halt.Some? ==> r == s
    ensures SameRegistry(r, s)
    ensures s.halt.None? ==> r.errors == (if TstSilent(s.onFail) then s.errors else s.errors + [msg])
    ensures s.halt.None? ==> (r.halt.None? <==> TstContinue(s.onFail))
    ensures s.halt.None? && !TstContinue(s.onFail) ==>
      r.halt == Some(if TstPanic(s.onFail) then Panicked(msg) else Exited(s.failExitCode))
  {
    var l := FailLog(s.onFail, s.failExitCode, s.errors, s.halt, msg);
    s.(errors := l.0, halt := l.1)
  }

  /**
   * Failf on the failure record alone (the messages printed and how the
   * run stopped), under the failure policy and exit code of a flag set.
   */
  function FailLog(onFail: FailOption, code: int, errors: seq<string>, halt: Option<Halt>, msg: string): (seq<string>, Option<Halt>) {
    if halt.Some? then (errors, halt)
    else
      (if TstSilent(onFail) then errors else errors + [msg],
       if TstContinue(onFail) then None
       else if TstPanic(onFail) then Some(Panicked(msg))
       else Some(Exited(code)))
  }

  /** log.Panic: the run stops with a panic. */
  function PanicOf(s: St, why: string): (r: St)
    ensures SameRegistry(r, s) && r.errors == s.errors
    ensures r.halt.Some?
    ensures s.halt.None? ==> r.halt == Some(Panicked(why))
    ensures s.halt.Some? ==> r == s
  {
    if s.halt.Some? then s else s.(halt := Some(Panicked(why)))
  }

  /** Failf with ContinueOnFail set and silence off only records the message. */
  lemma FailfContinues(s: St, msg: string)
    requires s.halt.None? && TstContinue(s.onFail) && !TstSilent(s.onFail)
    ensures FailfOf(s, msg) == s.(errors := s.errors + [msg])
  {
  }

  // ---------------------------------------------------------------------
  // Lookups

  /**
   * LookupShort: NoShort finds the -NUM flag only once one is registered;
   * any other rune finds the flag registered under it.
   */
  function LookupShortOf(s: St, r: Rune): (f: Option<nat>)
    ensures r == NoShort ==> (f.Some? <==> s.hasHyphenNumIdiom && NoShort in s.shortDict)
    ensures r != NoShort ==> (f.Some? <==> r in s.shortDict)
    ensures f.Some? ==> r in s.shortDict && f.value == s.shortDict[r]
  {
    if r == NoShort then
      if s.hasHyphenNumIdiom && NoShort in s.shortDict then Some(s.shortDict[NoShort]) else None
    else if r in s.shortDict then Some(s.shortDict[r])
    else None
  }

  /**
   * LookupLong: a one-rune string is first looked up as a short; otherwise,
   * or when no such short exists, the long trie answers for an exact key
   * or a unique prefix.
   */
  function LookupLongOf(s: St, long: string): (f: Option<nat>)
    ensures |long| == 1 ==>
      f == (if LookupShortOf(s, RuneOf(long[0])).Some? then LookupShortOf(s, RuneOf(long[0])) else Get(s.longTrie, long))
    ensures |long| > 1 ==> f == Get(s.longTrie, long)
    ensures long == "" ==>
      f == (if LookupShortOf(s, ErrRuneEmptyStr).Some? then LookupShortOf(s, ErrRuneEmptyStr) else Get(s.longTrie, long))
  {
    var (r, tail) := FirstRune(long);
    if |tail| == 0 then
      match LookupShortOf(s, r)
      case Some(f) => Some(f)
      case None => Get(s.longTrie, long)
    else Get(s.longTrie, long)
  }

  /** What Lookup accepts: a string (looked up as a long), a rune (as a short), or anything else. */
  datatype LookupItem = LongItem(long: string) | ShortItem(short: Rune) | OtherItem

  /** Lookup: dispatches on the kind of its argument; anything else finds nothing. */
  function LookupOf(s: St, item: LookupItem): (f: Option<nat>)
    ensures item.LongItem? ==> f == LookupLongOf(s, item.long)
    ensures item.ShortItem? ==> f == LookupShortOf(s, item.short)
    ensures item.OtherItem? ==> f == None
  {
    match item
    case LongItem(long) => LookupLongOf(s, long)
    case ShortItem(short) => LookupShortOf(s, short)
    case OtherItem => None
  }

  /** Every lookup answers with a flag of the arena. */
  lemma LookupInArena(s: St, item: LookupItem)
    requires StOk(s)
    ensures LookupOf(s, item).Some? ==> LookupOf(s, item).value < |s.flags|
  {
    if item.LongItem? && LookupOf(s, item).Some? && LookupLongOf(s, item.long) == Get(s.longTrie, item.long) {
      var w := GetSound(s.longTrie, item.long);
    }
  }

  /**
   * A registered short wins over the long trie for its one-rune string,
   * whatever long names start with that rune.
   */
  lemma LookupLongPrefersShort(s: St, c: char)
    requires RuneOf(c) != NoShort && RuneOf(c) in s.shortDict
    ensures LookupLongOf(s, [c]) == Some(s.shortDict[RuneOf(c)])
  {
  }

  /** Without a short of that rune, a one-rune string is a prefix query on the long trie. */
  lemma LookupLongFallsBack(s: St, c: char)
    requires RuneOf(c) != NoShort && RuneOf(c) !in s.shortDict
    ensures LookupLongOf(s, [c]) == Get(s.longTrie, [c])
  {
  }

  // ---------------------------------------------------------------------
  // Groups

  /** FlagSet.NewFlagGroup: appends an empty titled group and makes it current. */
  function NewFlagGroupOf(s: St, title: string): (r: St)
    ensures r.groups == s.groups + [FlagGroup(title, [])] && r.groupIndex == |s.groups|
    ensures r == s.(groups := r.groups, groupIndex := r.groupIndex)
    ensures StOk(s) ==> StOk(r)
  {
    s.(groups := s.groups + [FlagGroup(title, [])], groupIndex := |s.groups|)
  }

  /** The number of flags listed over all groups. */
  function TotalFlags(groups: seq<FlagGroup>): nat {
    if groups == [] then 0 else |groups[0].flagList| + TotalFlags(groups[1..])
  }

  /** HasFlags: some group lists a flag. */
  predicate HasFlagsOf(s: St) {
    TotalFlags(s.groups) > 0
  }

  /** The total is positive exactly when some group is non-empty. */
  lemma {:induction false} TotalFlagsPositive(groups: seq<FlagGroup>)
    ensures TotalFlags(groups) > 0 <==> exists g :: 0 <= g < |groups| && |groups[g].flagList| > 0
  {
    if groups != [] {
      TotalFlagsPositive(groups[1..]);
      if TotalFlags(groups[1..]) > 0 {
        var g :| 0 <= g < |groups[1..]| && |groups[1..][g].flagList| > 0;
        assert |groups[g + 1].flagList| > 0;
      }
      if exists g :: 0 <= g < |groups| && |groups[g].flagList| > 0 {
        var g :| 0 <= g < |groups| && |groups[g].flagList| > 0;
        if g > 0 {
          assert |groups[1..][g - 1].flagList| > 0;
        }
      }
    }
  }

  /** TotalFlags of a prefix grows by the next group's size. */
  lemma {:induction false} TotalFlagsSnoc(groups: seq<FlagGroup>, i: nat)
    requires i < |groups|
    ensures TotalFlags(groups[..i + 1]) == TotalFlags(groups[..i]) + |groups[i].flagList|
    decreases i
  {
    if i > 0 {
      assert groups[..i + 1][1..] == groups[1..][..i];
      assert groups[..i][1..] == groups[1..][..i - 1];
      TotalFlagsSnoc(groups[1..], i - 1);
    } else {
      assert groups[..1][1..] == [];
    }
  }

  /**
   * The package-level Group: with a single group and no flags yet the
   * group is renamed; otherwise a new current group is started.
   */
  function StartGroupOf(s: St, title: string): (r: St)
    ensures |s.groups| == 1 && !HasFlagsOf(s) ==>
      r == s.(groups := [FlagGroup(title, s.groups[0].flagList)])
    ensures !(|s.groups| == 1 && !HasFlagsOf(s)) ==> r == NewFlagGroupOf(s, title)
  {
    if |s.groups| == 1 && !HasFlagsOf(s) then s.(groups := [s.groups[0].(title := title)])
    else NewFlagGroupOf(s, title)
  }

  /** Every flag the groups list, group by group, in order. */
  function Listed(groups: seq<FlagGroup>): (hs: seq<nat>)
    ensures |hs| == TotalFlags(groups)
  {
    if groups == [] then [] else groups[0].flagList + Listed(groups[1..])
  }

  /** Every handle some group lists names a flag of the arena. */
  predicate GroupsInArena(s: St) {
    forall k :: 0 <= k < |Listed(s.groups)| ==> Listed(s.groups)[k] < |s.flags|
  }

  /**
   * Reset: the input and output deques are emptied, every known mutex is
   * released, and every flag some group lists gets a count of zero (an
   * alias included); nothing else changes.
   */
  function ResetOf(s: St): (r: St)
    ensures r.input == [] && r.output == []
    ensures r.mutex.Keys == s.mutex.Keys && forall n :: n in r.mutex ==> r.mutex[n] == None
    ensures |r.flags| == |s.flags|
    ensures forall i :: 0 <= i < |s.flags| ==> r.flags[i] == (if i in Listed(s.groups) then s.flags[i].(count := 0) else s.flags[i])
    ensures r == s.(input := [], output := [], mutex := r.mutex, flags := r.flags)
  {
    s.(input := [], output := [], mutex := map n | n in s.mutex :: None,
       flags := seq(|s.flags|, i requires 0 <= i < |s.flags| =>
         if i in Listed(s.groups) then s.flags[i].(count := 0) else s.flags[i]))
  }

  /** Reset twice is Reset once. */
  lemma ResetIdempotent(s: St)
    ensures ResetOf(ResetOf(s)) == ResetOf(s)
  {
    var r := ResetOf(s);
    var rr := ResetOf(r);
    assert rr.flags == r.flags;
    assert rr.mutex == r.mutex;
  }

  /** Reset keeps every handle of the registry inside the arena. */
  lemma ResetKeepsOk(s: St)
    requires StOk(s)
    ensures StOk(ResetOf(s))
  {
    var r := ResetOf(s);
    assert forall i :: 0 <= i < |s.flags| ==> r.flags[i].aliasFor == s.flags[i].aliasFor;
  }

  /** The largest of some lengths, 0 for none: at least each, and one of them. */
  function MaxOf(lens: seq<nat>): (n: nat)
    ensures forall k :: 0 <= k < |lens| ==> n >= lens[k]
    ensures lens == [] ==> n == 0
    ensures lens != [] ==> exists k :: 0 <= k < |lens| && n == lens[k]
  {
    if lens == [] then 0
    else
      var m := MaxOf(lens[..|lens| - 1]);
      if m >= lens[|lens| - 1] then m else lens[|lens| - 1]
  }

  /** The FlagString lengths of the flags the groups list, in order. */
  function ListedLens(s: St): (lens: seq<nat>)
    requires ArenaOk(s.flags) && GroupsInArena(s)
    ensures |lens| == |Listed(s.groups)|
    ensures forall k :: 0 <= k < |lens| ==> lens[k] == |FlagString(s.flags, Listed(s.groups)[k])|
  {
    var hs := Listed(s.groups);
    seq(|hs|, k requires 0 <= k < |hs| => |FlagString(s.flags, hs[k])|)
  }

  /** FlagStringMaxLen: the longest FlagString of a flag some group lists. */
  function FlagStringMaxLenOf(s: St): nat
    requires ArenaOk(s.flags) && GroupsInArena(s)
  {
    MaxOf(ListedLens(s))
  }

  /**
   * FlagStringMaxLen is at least the length of every listed flag's
   * FlagString, and is the length of one of them (0 with none listed).
   */
  lemma FlagStringMaxLenBounds(s: St)
    requires ArenaOk(s.flags) && GroupsInArena(s)
    ensures forall k :: 0 <= k < |Listed(s.groups)| ==> FlagStringMaxLenOf(s) >= |FlagString(s.flags, Listed(s.groups)[k])|
    ensures Listed(s.groups) == [] ==> FlagStringMaxLenOf(s) == 0
    ensures Listed(s.groups) != [] ==>
      exists k :: 0 <= k < |Listed(s.groups)| && FlagStringMaxLenOf(s) == |FlagString(s.flags, Listed(s.groups)[k])|
  {
    var lens := ListedLens(s);
    if lens != [] {
      var k :| 0 <= k < |lens| && MaxOf(lens) == lens[k];
    }
  }

  // ---------------------------------------------------------------------
  // Registration

  datatype AddError =
    | NilFlag
    | InvalidPair
    | DuplicateLong
    | DuplicateShort
    | DigitWithHyphenNum
    | HyphenNumTwice
    | HyphenNumWithDigits

  /** Appends a handle to the current group's list. */
  function AppendToGroup(s: St, h: nat): (r: St)
    requires 0 <= s.groupIndex < |s.groups|
    ensures |r.groups| == |s.groups|
    ensures r.groups[s.groupIndex].flagList == s.groups[s.groupIndex].flagList + [h]
    ensures r.groups[s.groupIndex].title == s.groups[s.groupIndex].title
    ensures forall g :: 0 <= g < |s.groups| && g != s.groupIndex ==> r.groups[g] == s.groups[g]
    ensures r == s.(groups := r.groups)
  {
    var g := s.groups[s.groupIndex];
    s.(groups := s.groups[s.groupIndex := g.(flagList := g.flagList + [h])])
  }

  /**
   * The part of AddFlag after the long name went into the trie: the
   * duplicate-short check, the digit-short and -NUM checks, the short
   * map and the current group.
   */
  function AddShortOf(s: St, h: nat): (r: (St, Option<AddError>))
    requires 0 <= s.groupIndex < |s.groups| && h < |s.flags|
    ensures r.0.flags == s.flags && r.0.halt == s.halt
    ensures r.0.groupIndex == s.groupIndex && |r.0.groups| == |s.groups|
    ensures r.1.Some? ==> r.0.groups == s.groups
    ensures r.0.input == s.input && r.0.output == s.output
  {
    var f := s.flags[h];
    if f.short != NoShort && f.short in s.shortDict then (s, Some(DuplicateShort))
    else if IsNumberRune(f.short) && s.hasHyphenNumIdiom then (s, Some(DigitWithHyphenNum))
    else
      var numberShorts := s.hasNumberShorts || IsNumberRune(f.short);
      var dict := if f.short != NoShort || f.long == NoLong then s.shortDict[f.short := h] else s.shortDict;
      var s2 := s.(shortDict := dict, hasNumberShorts := numberShorts);
      if IsHyphenNum(f) && s.hasHyphenNumIdiom then (s2, Some(HyphenNumTwice))
      else if IsHyphenNum(f) && numberShorts then (s2, Some(HyphenNumWithDigits))
      else (AppendToGroup(s2.(hasHyphenNumIdiom := s.hasHyphenNumIdiom || IsHyphenNum(f)), h), None)
  }

  /**
   * What AddShortOf leaves and where it puts the flag: the long trie and
   * the mutexes stay; when it succeeds the flag joins the current group.
   */
  lemma AddShortRegisters(s: St, h: nat)
    requires 0 <= s.groupIndex < |s.groups| && h < |s.flags|
    ensures AddShortOf(s, h).0.longTrie == s.longTrie && AddShortOf(s, h).0.mutex == s.mutex
    ensures AddShortOf(s, h).1.None? ==> AddShortOf(s, h).0.groups == AppendToGroup(s, h).groups
  {
  }

  /**
   * When AddShortOf succeeds the short map takes the flag's short (NoShort
   * only for a flag without a long name) and the -NUM and digit-short marks
   * take the flag into account.
   */
  lemma AddShortMarks(s: St, h: nat)
    requires 0 <= s.groupIndex < |s.groups| && h < |s.flags|
    ensures var f := s.flags[h]; AddShortOf(s, h).1.None? ==>
      AddShortOf(s, h).0.shortDict == (if f.short != NoShort || f.long == NoLong then s.shortDict[f.short := h] else s.shortDict)
    ensures AddShortOf(s, h).1.None? ==>
      (AddShortOf(s, h).0.hasHyphenNumIdiom <==> s.hasHyphenNumIdiom || IsHyphenNum(s.flags[h]))
    ensures AddShortOf(s, h).1.None? ==>
      (AddShortOf(s, h).0.hasNumberShorts <==> s.hasNumberShorts || IsNumberRune(s.flags[h].short))
  {
  }

  /** The refusals of AddShortOf, each with the condition that causes it. */
  lemma AddShortErrors(s: St, h: nat)
    requires 0 <= s.groupIndex < |s.groups| && h < |s.flags|
    ensures var f := s.flags[h];
      AddShortOf(s, h).1 == Some(DuplicateShort) <==> f.short != NoShort && f.short in s.shortDict
    ensures var f := s.flags[h];
      AddShortOf(s, h).1 == Some(DigitWithHyphenNum) <==>
        (!(f.short != NoShort && f.short in s.shortDict) && IsNumberRune(f.short) && s.hasHyphenNumIdiom)
    ensures var f := s.flags[h];
      AddShortOf(s, h).1 == Some(HyphenNumTwice) <==> IsHyphenNum(f) && s.hasHyphenNumIdiom
    ensures var f := s.flags[h];
      AddShortOf(s, h).1 == Some(HyphenNumWithDigits) <==> IsHyphenNum(f) && !s.hasHyphenNumIdiom && s.hasNumberShorts
  {
  }

  /**
   * AddFlag: refuses nil and an invalid pair; inserts the long name into
   * the trie, where a duplicate is refused after the trie was reshaped;
   * then registers the short and appends the flag to the current group.
   * A short the package reserves panics.
   */
  function AddFlagOf(cfg: Config, s: St, h: Option<nat>): (r: (St, Option<AddError>))
    requires 0 <= s.groupIndex < |s.groups| && (h.Some? ==> h.value < |s.flags|)
    ensures r.0.flags == s.flags && r.0.groupIndex == s.groupIndex && |r.0.groups| == |s.groups|
    ensures h.None? ==> r == (s, Some(NilFlag))
    ensures r.0.input == s.input && r.0.output == s.output
  {
    if h.None? then (s, Some(NilFlag))
    else
      var f := s.flags[h.value];
      match IsValidPair(cfg, f.short, f.long)
      case Panic(why) => (PanicOf(s, why), None)
      case Ok(ok) =>
        if !ok then (s, Some(InvalidPair))
        else if f.long != NoLong then
          var a := Add(s.longTrie, f.long, h.value);
          if a.duplicate then (s.(longTrie := a.trie), Some(DuplicateLong))
          else AddShortOf(s.(longTrie := a.trie), h.value)
        else AddShortOf(s, h.value)
  }

  /** AddFlag panics exactly on a pair IsValidPair panics on, and refuses an invalid pair. */
  lemma AddFlagChecks(cfg: Config, s: St, h: nat)
    requires 0 <= s.groupIndex < |s.groups| && h < |s.flags|
    ensures var f := s.flags[h]; var r := AddFlagOf(cfg, s, Some(h));
      s.halt.None? ==> (r.0.halt != s.halt <==> IsValidPair(cfg, f.short, f.long).Panic?)
    ensures var f := s.flags[h]; var r := AddFlagOf(cfg, s, Some(h));
      r.1 == Some(InvalidPair) <==> IsValidPair(cfg, f.short, f.long) == Ok(false)
  {
  }

  /**
   * AddFlag refuses a long name the trie already holds; a refusal leaves
   * the groups alone, and a halted run stays halted.
   */
  lemma AddFlagRefusals(cfg: Config, s: St, h: nat)
    requires 0 <= s.groupIndex < |s.groups| && h < |s.flags|
    ensures var f := s.flags[h]; var r := AddFlagOf(cfg, s, Some(h));
      r.1 == Some(DuplicateLong) <==>
        (IsValidPair(cfg, f.short, f.long) == Ok(true) && f.long != NoLong && Add(s.longTrie, f.long, h).duplicate)
    ensures var r := AddFlagOf(cfg, s, Some(h)); r.1.Some? ==> r.0.groups == s.groups
    ensures var r := AddFlagOf(cfg, s, Some(h)); r.0.halt == s.halt || r.0.halt.Some?
  {
  }

  /**
   * For a valid pair AddFlag puts the long name into the trie first (even
   * when it is then refused), and past the duplicate-long check the rest is
   * AddShortOf on the updated trie.
   */
  lemma AddFlagSteps(cfg: Config, s: St, h: nat)
    requires 0 <= s.groupIndex < |s.groups| && h < |s.flags|
    requires IsValidPair(cfg, s.flags[h].short, s.flags[h].long) == Ok(true)
    ensures var f := s.flags[h]; var r := AddFlagOf(cfg, s, Some(h));
      r.0.longTrie == (if f.long != NoLong then Add(s.longTrie, f.long, h).trie else s.longTrie)
    ensures var r := AddFlagOf(cfg, s, Some(h));
      r.1 != Some(DuplicateLong) ==> r == AddShortOf(s.(longTrie := r.0.longTrie), h)
  {
    var f := s.flags[h];
    if f.long != NoLong {
      AddShortRegisters(s.(longTrie := Add(s.longTrie, f.long, h).trie), h);
    } else {
      AddShortRegisters(s, h);
      assert s.(longTrie := s.longTrie) == s;
    }
  }

  /** Registering a short keeps every handle inside the arena. */
  lemma AddShortKeepsOk(s: St, h: nat)
    requires StOk(s) && h < |s.flags|
    ensures StOk(AddShortOf(s, h).0)
  {
    AddShortRegisters(s, h);
    AddShortMarks(s, h);
    var r := AddShortOf(s, h).0;
    forall g, i | 0 <= g < |r.groups| && 0 <= i < |r.groups[g].flagList|
      ensures r.groups[g].flagList[i] < |r.flags|
    {
      if AddShortOf(s, h).1.None? && g == s.groupIndex && i == |s.groups[g].flagList| {
      }
    }
  }

  /** Putting a handle of the arena into the long trie keeps every handle inside the arena. */
  lemma TrieAddKeepsOk(s: St, long: string, h: nat)
    requires StOk(s) && h < |s.flags|
    ensures StOk(s.(longTrie := Add(s.longTrie, long, h).trie))
  {
    AddContent(s.longTrie, long, h);
  }

  /** AddFlag keeps every handle inside the arena. */
  lemma AddFlagKeepsOk(cfg: Config, s: St, h: Option<nat>)
    requires StOk(s) && (h.Some? ==> h.value < |s.flags|)
    ensures StOk(AddFlagOf(cfg, s, h).0)
  {
    if h.Some? {
      var f := s.flags[h.value];
      match IsValidPair(cfg, f.short, f.long)
      case Panic(why) => SameRegistryKeepsOk(s, PanicOf(s, why));
      case Ok(ok) =>
        if ok && f.long != NoLong {
          var a := Add(s.longTrie, f.long, h.value);
          TrieAddKeepsOk(s, f.long, h.value);
          if !a.duplicate {
            AddShortKeepsOk(s.(longTrie := a.trie), h.value);
          }
        } else if ok {
          AddShortKeepsOk(s, h.value);
        }
    }
  }

  lemma SameRegistryKeepsOk(s: St, r: St)
    requires StOk(s) && SameRegistry(r, s)
    ensures StOk(r)
  {
  }

  /** Failf and panics keep every handle inside the arena. */
  lemma FailKeepsOk(s: St)
    ensures StOk(s) ==> forall why :: StOk(PanicOf(s, why)) && StOk(FailfOf(s, why))
  {
    forall why | StOk(s) ensures StOk(PanicOf(s, why)) && StOk(FailfOf(s, why)) {
      SameRegistryKeepsOk(s, PanicOf(s, why));
      SameRegistryKeepsOk(s, FailfOf(s, why));
    }
  }

  /** A successful AddFlag makes the flag findable by its short and, exactly, by its long name. */
  lemma AddFlagFindable(cfg: Config, s: St, h: nat)
    requires StOk(s) && h < |s.flags|
    requires IsValidPair(cfg, s.flags[h].short, s.flags[h].long) == Ok(true) && AddFlagOf(cfg, s, Some(h)).1.None?
    ensures var r := AddFlagOf(cfg, s, Some(h)).0; var f := s.flags[h];
      (f.short != NoShort ==> LookupShortOf(r, f.short) == Some(h)) &&
      (f.long != NoLong ==> Get(r.longTrie, f.long) == Some(h)) &&
      (IsHyphenNum(f) ==> LookupShortOf(r, NoShort) == Some(h))
  {
    var f := s.flags[h];
    AddFlagSteps(cfg, s, h);
    var t := if f.long != NoLong then Add(s.longTrie, f.long, h).trie else s.longTrie;
    AddShortMarks(s.(longTrie := t), h);
    if f.long != NoLong {
      AddContent(s.longTrie, f.long, h);
      assert Stores(t, s.longTrie, f.long, h);
      assert Trie.Lookup(t, f.long) == Some(h);
      GetExact(t, f.long);
    }
  }

  /** AddFlag refuses a second flag with the same short. */
  lemma AddFlagRejectsDuplicateShort(cfg: Config, s: St, h: nat)
    requires StOk(s) && h < |s.flags|
    requires IsValidPair(cfg, s.flags[h].short, s.flags[h].long) == Ok(true)
    requires s.flags[h].long == NoLong || !Add(s.longTrie, s.flags[h].long, h).duplicate
    requires s.flags[h].short != NoShort && s.flags[h].short in s.shortDict
    ensures AddFlagOf(cfg, s, Some(h)).1 == Some(DuplicateShort)
    ensures AddFlagOf(cfg, s, Some(h)).0.groups == s.groups
  {
    var f := s.flags[h];
    if f.long != NoLong {
      AddShortErrors(s.(longTrie := Add(s.longTrie, f.long, h).trie), h);
    } else {
      AddShortErrors(s, h);
    }
  }

  /**
   * A refused duplicate short still leaves the long name in the trie:
   * the flag can be found by a long name although AddFlag failed.
   */
  lemma AddFlagRejectedKeepsLong(cfg: Config, s: St, h: nat)
    requires StOk(s) && h < |s.flags|
    requires IsValidPair(cfg, s.flags[h].short, s.flags[h].long) == Ok(true)
    requires s.flags[h].long != NoLong && !Add(s.longTrie, s.flags[h].long, h).duplicate
    requires s.flags[h].short in s.shortDict && s.flags[h].short != NoShort
    ensures AddFlagOf(cfg, s, Some(h)).1 == Some(DuplicateShort)
    ensures Get(AddFlagOf(cfg, s, Some(h)).0.longTrie, s.flags[h].long) == Some(h)
  {
    var f := s.flags[h];
    AddShortErrors(s.(longTrie := Add(s.longTrie, f.long, h).trie), h);
    AddContent(s.longTrie, f.long, h);
    GetExact(Add(s.longTrie, f.long, h).trie, f.long);
  }

  /** The -NUM idiom and digit shorts exclude each other, and -NUM is registered at most once. */
  lemma AddFlagHyphenNumRules(cfg: Config, s: St, h: nat)
    requires StOk(s) && h < |s.flags|
    requires IsValidPair(cfg, s.flags[h].short, s.flags[h].long) == Ok(true)
    requires s.flags[h].long == NoLong || !Add(s.longTrie, s.flags[h].long, h).duplicate
    ensures var f := s.flags[h]; var r := AddFlagOf(cfg, s, Some(h));
      (IsNumberRune(f.short) && s.hasHyphenNumIdiom && f.short !in s.shortDict ==> r.1 == Some(DigitWithHyphenNum)) &&
      (IsHyphenNum(f) && s.hasHyphenNumIdiom ==> r.1 == Some(HyphenNumTwice)) &&
      (IsHyphenNum(f) && !s.hasHyphenNumIdiom && s.hasNumberShorts ==> r.1 == Some(HyphenNumWithDigits))
  {
    var f := s.flags[h];
    if f.long != NoLong {
      AddShortErrors(s.(longTrie := Add(s.longTrie, f.long, h).trie), h);
    } else {
      AddShortErrors(s, h);
    }
  }
}
