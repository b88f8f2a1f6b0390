/**
 * flag.go: one command-line flag. A flag has an identity (a short rune
 * and a long name), a storage target and defaults, and a word of
 * behaviour bits. This module also holds the checks on short and long
 * names, the "short/long" identifier format, the help-text formatters
 * and the functional options that configure a flag before it is
 * registered.
 *
 * A `*Flag` is a handle: an index into the arena of flags that a flag set
 * owns (see module FlagSets). An operation that rewrites a flag's fields
 * yields the rewritten flag. `log.Panic` becomes the `Panic` outcome of
 * `Checked`.
 */
module Flags {
  import opened Wrappers
  import opened Runes
  import opened GoText
  import opened Types
  import opened Coerce

  /** The package switches a program may assign before it parses. */
  datatype Config = Config(
    defaultListSeparator: string,
    posixRejectQuest: bool,
    posixRejectW: bool,
    posixEquals: bool,
    posixDoubleHyphen: bool,
    posixOperandStop: bool)

  /** Their initial values: "," as list separator and every POSIX switch on. */
  const DefaultConfig: Config := Config(",", true, true, true, true, true)

  /** A computation that returns a value or panics with a reason. */
  datatype Checked<T> = Ok(value: T) | Panic(why: string)

  /** The behaviour bits of a flag (a uint16). */
  type FlagType = bv16

  const ClearFlagType: FlagType := 0x0000
  const LongAliasBit: FlagType := 0x0001
  const ShortAliasBit: FlagType := 0x0002
  const ObsoleteBit: FlagType := 0x0004
  const NotImplementedBit: FlagType := 0x0008
  const HiddenBit: FlagType := 0x0010
  const ChangedBit: FlagType := 0x0020
  const CounterBit: FlagType := 0x0040
  const RepeatsBit: FlagType := 0x0080
  const IgnoreRepeatsBit: FlagType := 0x0100
  const FileBit: FlagType := 0x0200
  const DefOptionalBit: FlagType := 0x0400
  const SavedFileBit: FlagType := 0x0800

  predicate TstAliasBits(ft: FlagType) {
    (ft & ShortAliasBit) | (ft & LongAliasBit) != 0
  }

  /**
   * A flag. `value` is the storage target (a pointer is represented by
   * the value it points at), `aliasFor` the handle of the flag an alias
   * stands for, `callback` and `savedCallback` name callback functions.
   */
  datatype Flag = Flag(
    value: Value,
    long: string,
    short: Rune,
    ftype: FlagType,
    count: int,
    valueTypeTag: string,
    default: Value,
    aliasFor: Option<nat>,
    usage: string,
    callback: Option<nat>,
    listSeparator: string,
    mutexes: seq<string>,
    savedCallback: Option<nat>)

  const IdSep: string := "/"
  const NoShort: Rune := 0
  const NoLong: string := ""

  // ---------------------------------------------------------------------
  // Names and identifiers

  /** The shorts POSIX reserves, when the corresponding switch is on. */
  predicate Reserved(cfg: Config, r: Rune) {
    (cfg.posixRejectQuest && r == '?' as int) || (cfg.posixRejectW && r == 'W' as int)
  }

  /** The runes a short may be: '?', a letter or a digit. */
  predicate ShortRune(r: Rune) {
    r == '?' as int || IsLetterRune(r) || IsNumberRune(r)
  }

  /** IsValidShort: a reserved short panics; otherwise '?', letters and digits are valid. */
  function IsValidShort(cfg: Config, r: Rune): (c: Checked<bool>)
    ensures c.Panic? <==> Reserved(cfg, r)
    ensures c.Ok? ==> (c.value <==> ShortRune(r))
  {
    if cfg.posixRejectQuest && r == '?' as int then Panic("cannot use '-?' as a short option")
    else if cfg.posixRejectW && r == 'W' as int then Panic("cannot use '-W' as a short option")
    else Ok(r == '?' as int || IsLetterRune(r) || IsNumberRune(r))
  }

  /** A valid short is one printable rune, distinct from NoShort and from the separators. */
  lemma ValidShortIsName(cfg: Config, r: Rune)
    requires IsValidShort(cfg, r) == Ok(true)
    ensures IsScalarValue(r) && r != NoShort
    ensures RuneString(r) == [r as char]
    ensures r != '/' as int && r != '-' as int && r != '=' as int
  {
  }

  predicate LongRune(c: char) {
    c == '-' || IsLetter(c) || Runes.IsNumber(c)
  }

  /** The longs IsValidLong accepts. */
  predicate ValidLong(s: string) {
    |s| >= 2 && s[0] != '-' && forall i :: 0 <= i < |s| ==> LongRune(s[i])
  }

  /**
   * IsValidLong: at least two bytes, no leading '-', and only letters,
   * digits and '-'.
   */
  method IsValidLong(s: string) returns (ok: bool)
    ensures ok <==> ValidLong(s)
  {
    if |s| < 2 {
      return false;
    }
    if s[0] == '-' {
      return false;
    }
    var i := 0;
    while i < |s|
      invariant 0 <= i <= |s|
      invariant forall j :: 0 <= j < i ==> LongRune(s[j])
    {
      if !LongRune(s[i]) {
        return false;
      }
      i := i + 1;
    }
    return true;
  }

  /** A valid long is not NoLong and contains neither the identifier separator nor '='. */
  lemma ValidLongIsName(s: string)
    requires ValidLong(s)
    ensures s != NoLong && NoChar(s, '/') && NoChar(s, '=')
  {
    assert forall i :: 0 <= i < |s| ==> LongRune(s[i]);
  }

  /** Each half of a pair is either absent or valid. */
  predicate PairOk(short: Rune, long: string) {
    (short == NoShort || ShortRune(short)) && (long == NoLong || ValidLong(long))
  }

  /**
   * IsValidPair: the -NUM pair (NoShort, NoLong) is valid; otherwise the
   * short is checked first (and may panic), and the pair is valid when
   * each half is absent or valid.
   */
  function IsValidPair(cfg: Config, short: Rune, long: string): (c: Checked<bool>)
    ensures c.Panic? <==> !(short == NoShort && long == NoLong) && Reserved(cfg, short)
    ensures c.Ok? ==> (c.value <==> PairOk(short, long))
  {
    if short == NoShort && long == NoLong then Ok(true)
    else match IsValidShort(cfg, short)
      case Panic(why) => Panic(why)
      case Ok(goodShort) =>
        if long == NoLong && goodShort then Ok(true)
        else
          var goodLong := ValidLong(long);
          if short == NoShort && goodLong then Ok(true)
          else Ok(goodShort && goodLong)
  }

  /** ID: "short/long" for a valid pair, "" for an invalid one. */
  function ID(cfg: Config, short: Rune, long: string): (c: Checked<string>)
    ensures c.Panic? <==> IsValidPair(cfg, short, long).Panic?
    ensures c == Ok("") <==> IsValidPair(cfg, short, long) == Ok(false)
  {
    match IsValidPair(cfg, short, long)
    case Panic(why) => Panic(why)
    case Ok(ok) => if ok then Ok(RuneString(short) + IdSep + long) else Ok("")
  }

  /** The empty string, or the one-byte string holding NoShort. */
  predicate EmptyOrNoShort(s: string) {
    |s| == 0 || (|s| == 1 && RuneOf(s[0]) == NoShort)
  }

  /**
   * UnID: splits "short/long" back into its pair. A malformed identifier
   * gives one of the error runes; a pair that is not valid gives
   * ErrRuneIdPartsBad.
   */
  function UnID(cfg: Config, id: string): (c: Checked<(Rune, string)>)
    ensures id == "" ==> c == Ok((ErrRuneEmptyStr, ""))
    ensures c.Ok? && c.value.0 >= 0 ==> PairOk(c.value.0, c.value.1)
    ensures c.Ok? && c.value.0 < 0 ==>
      c.value.0 in {ErrRuneEmptyStr, ErrRuneIdSepBad, ErrRuneShortBad, ErrRuneIdPartsBad}
  {
    if id == "" then Ok((ErrRuneEmptyStr, ""))
    else
      var parts := Split(id, IdSep);
      if |parts| != 2 then Ok((ErrRuneIdSepBad, ""))
      else if parts[1] == NoLong && EmptyOrNoShort(parts[0]) then Ok((NoShort, NoLong))
      else
        var fr := FirstRune(parts[0]);
        if fr.0 < 0 || fr.1 != "" then Ok((ErrRuneShortBad, NoLong))
        else match IsValidPair(cfg, fr.0, parts[1])
          case Panic(why) => Panic(why)
          case Ok(ok) => if ok then Ok((fr.0, parts[1])) else Ok((ErrRuneIdPartsBad, ""))
  }

  /** UnID reads back the pair ID writes, for every valid pair. */
  lemma IdRoundTrip(cfg: Config, short: Rune, long: string)
    requires IsValidPair(cfg, short, long) == Ok(true)
    ensures ID(cfg, short, long).Ok? && UnID(cfg, ID(cfg, short, long).value) == Ok((short, long))
  {
    assert short == NoShort || ShortRune(short);
    var s := RuneString(short);
    assert s == [short as char];
    assert NoChar(s, '/');
    if long != NoLong {
      ValidLongIsName(long);
    }
    assert NoChar(long, '/');
    var id := s + IdSep + long;
    assert Join([s, long], "/") == id;
    SplitJoin([s, long], '/');
    assert Split(id, IdSep) == [s, long];
    FirstRuneCons(short as char, "");
    assert s == [short as char] + "";
    if short != NoShort {
      assert !EmptyOrNoShort(s);
      assert IsValidShort(cfg, short) == Ok(true);
    }
  }

  /** ID writes back the identifier UnID read, except for the bare separator "/". */
  lemma UnIdRoundTrip(cfg: Config, id: string)
    requires UnID(cfg, id).Ok? && UnID(cfg, id).value.0 >= 0 && id != IdSep
    ensures ID(cfg, UnID(cfg, id).value.0, UnID(cfg, id).value.1) == Ok(id)
  {
    var parts := Split(id, IdSep);
    JoinSplit(id, IdSep);
    assert Join(parts, IdSep) == parts[0] + IdSep + parts[1] by {
      assert |parts| == 2;
      assert parts[1..] == [parts[1]];
    }
    if parts[1] == NoLong && EmptyOrNoShort(parts[0]) {
      assert parts[0] != "";
      assert parts[0] == RuneString(NoShort);
      assert UnID(cfg, id) == Ok((NoShort, NoLong));
    } else {
      var fr := FirstRune(parts[0]);
      assert UnID(cfg, id) == Ok((fr.0, parts[1]));
      assert IsValidPair(cfg, fr.0, parts[1]) == Ok(true);
      assert RuneString(fr.0) == parts[0];
    }
  }

  /** One row of the round-trip table: a valid pair and the identifier it has. */
  lemma IdRow(short: Rune, long: string, id: string)
    requires IsValidPair(DefaultConfig, short, long) == Ok(true)
    requires RuneString(short) + IdSep + long == id
    ensures ID(DefaultConfig, short, long) == Ok(id)
    ensures UnID(DefaultConfig, id) == Ok((short, long))
  {
    IdRoundTrip(DefaultConfig, short, long);
  }

  /** The identifier cases of flag_test.go's round-trip table. */
  lemma IdTable()
    ensures ID(DefaultConfig, 'e' as int, "example") == Ok("e/example")
    ensures UnID(DefaultConfig, "e/example") == Ok(('e' as int, "example"))
    ensures ID(DefaultConfig, 'e' as int, "") == Ok("e/")
    ensures UnID(DefaultConfig, "e/") == Ok(('e' as int, ""))
    ensures ID(DefaultConfig, NoShort, "example") == Ok([0 as char] + "/example")
    ensures UnID(DefaultConfig, [0 as char] + "/example") == Ok((NoShort, "example"))
    ensures ID(DefaultConfig, NoShort, "") == Ok([0 as char] + "/")
    ensures UnID(DefaultConfig, [0 as char] + "/") == Ok((NoShort, ""))
    ensures ID(DefaultConfig, ErrRuneEmptyStr, "") == Ok("")
    ensures UnID(DefaultConfig, "") == Ok((ErrRuneEmptyStr, ""))
  {
    IdRowsExample();
    IdRowsNoLong();
  }

  /** The rows with the long name "example". */
  lemma IdRowsExample()
    ensures ID(DefaultConfig, 'e' as int, "example") == Ok("e/example")
    ensures UnID(DefaultConfig, "e/example") == Ok(('e' as int, "example"))
    ensures ID(DefaultConfig, NoShort, "example") == Ok([0 as char] + "/example")
    ensures UnID(DefaultConfig, [0 as char] + "/example") == Ok((NoShort, "example"))
  {
    var example := "example";
    assert ValidLong(example) by {
      assert forall i :: 0 <= i < |example| ==> LongRune(example[i]);
    }
    assert RuneString('e' as int) == "e";
    IdRow('e' as int, example, "e/example");
    assert RuneString(NoShort) == [0 as char];
    IdRow(NoShort, example, [0 as char] + "/example");
  }

  /** The rows without a long name, and the empty identifier. */
  lemma IdRowsNoLong()
    ensures ID(DefaultConfig, 'e' as int, "") == Ok("e/")
    ensures UnID(DefaultConfig, "e/") == Ok(('e' as int, ""))
    ensures ID(DefaultConfig, NoShort, "") == Ok([0 as char] + "/")
    ensures UnID(DefaultConfig, [0 as char] + "/") == Ok((NoShort, ""))
    ensures ID(DefaultConfig, ErrRuneEmptyStr, "") == Ok("")
    ensures UnID(DefaultConfig, "") == Ok((ErrRuneEmptyStr, ""))
  {
    assert RuneString('e' as int) == "e";
    IdRow('e' as int, "", "e/");
    assert RuneString(NoShort) == [0 as char];
    IdRow(NoShort, "", [0 as char] + "/");
  }

  // ---------------------------------------------------------------------
  // The arena of flags, aliases and defaults

  /** Every alias handle in the arena names a flag of the arena. */
  predicate ArenaOk(flags: seq<Flag>) {
    forall i :: 0 <= i < |flags| ==> (flags[i].aliasFor.Some? ==> flags[i].aliasFor.value < |flags|)
  }

  /** The `if f.AliasFor != nil { f = f.AliasFor }` hop: the flag an alias stands for. */
  function Resolve(flags: seq<Flag>, h: nat): (t: nat)
    requires ArenaOk(flags) && h < |flags|
    ensures t < |flags|
  {
    if flags[h].aliasFor.Some? then flags[h].aliasFor.value else h
  }

  predicate IsSlice(v: Value) {
    Tst(Type(v), SliceT)
  }

  /**
   * GetDefault on the flag an alias stands for: of a slice of defaults
   * (an enumeration) its first item, else the default itself. A second
   * alias hop or an empty slice of defaults panics.
   */
  function DefaultOf(f: Flag): (c: Checked<Value>)
    ensures c.Panic? <==> f.aliasFor.Some? || (IsSlice(f.default) && SliceLen(f.default) <= 0)
    ensures c.Ok? ==> c.value == (if IsSlice(f.default) then Plain(Items(f.default)[0]) else f.default)
  {
    SliceLenType(f.default);
    if f.aliasFor.Some? then Panic("double alias in Flag.GetDefault()")
    else if IsSlice(f.default) then
      if SliceLen(f.default) > 0 then Ok(ItemAt(f.default, 0))
      else Panic("f.Default is an empty slice in Flag.GetDefault()")
    else Ok(f.default)
  }

  /** GetDefault: the alias hop, then the default of the flag reached. */
  function GetDefault(flags: seq<Flag>, h: nat): Checked<Value>
    requires ArenaOk(flags) && h < |flags|
  {
    DefaultOf(flags[Resolve(flags, h)])
  }

  /** The outcome of looking a value up among a flag's enumerated defaults. */
  datatype Membership = Member | NotMember | CoerceFailed(e: CoerceError)

  /**
   * The loop of InDefaults from item `i` on: each default item in turn is
   * compared with the value coerced to the item's type; the first
   * coercion error ends the search.
   */
  function InDefaultsFrom(d: Value, ix: Value, i: nat): (m: Membership)
    requires Wf(ix)
    ensures m == NotMember ==> forall j :: i <= j < SliceLen(d) ==>
      CoerceScalarAsWritten(ItemAt(d, j), ix).1 == None && CoerceScalarAsWritten(ItemAt(d, j), ix).0 != ItemAt(d, j)
    ensures m == Member ==> exists j :: i <= j < SliceLen(d) && CoerceScalarAsWritten(ItemAt(d, j), ix) == (ItemAt(d, j), None)
    ensures m.CoerceFailed? ==> exists j :: i <= j < SliceLen(d) && CoerceScalarAsWritten(ItemAt(d, j), ix).1 == Some(m.e)
    decreases SliceLen(d) - i
  {
    if i >= SliceLen(d) then NotMember
    else
      var item := ItemAt(d, i);
      var r := CoerceScalarAsWritten(item, ix);
      if r.1.Some? then CoerceFailed(r.1.value)
      else if item == r.0 then Member
      else InDefaultsFrom(d, ix, i + 1)
  }

  /**
   * InDefaults on the flag an alias stands for: a value is in its
   * defaults when those are not a slice or when some item equals the
   * value after coercion. A second alias hop panics.
   */
  function InDefaultsAt(f: Flag, ix: Value): (c: Checked<Membership>)
    requires Wf(ix)
    ensures c.Panic? <==> f.aliasFor.Some?
    ensures c.Ok? && !IsSlice(f.default) ==> c.value == Member
  {
    if f.aliasFor.Some? then Panic("double alias in Flag.InDefaults()")
    else if !IsSlice(f.default) then Ok(Member)
    else Ok(InDefaultsFrom(f.default, ix, 0))
  }

  /** InDefaults: the alias hop, then the search of the flag reached. */
  function InDefaultsOf(flags: seq<Flag>, h: nat, ix: Value): Checked<Membership>
    requires ArenaOk(flags) && h < |flags| && Wf(ix)
  {
    InDefaultsAt(flags[Resolve(flags, h)], ix)
  }

  /** With an enumeration of defaults, a value is a member iff one item equals its coercion. */
  lemma InDefaultsMeaning(f: Flag, ix: Value)
    requires Wf(ix) && f.aliasFor.None? && f.default.List?
    requires forall j :: 0 <= j < SliceLen(f.default) ==> CoerceScalarAsWritten(ItemAt(f.default, j), ix).1 == None
    ensures InDefaultsAt(f, ix) == Ok(Member) <==>
      exists j :: 0 <= j < SliceLen(f.default) && CoerceScalarAsWritten(ItemAt(f.default, j), ix).0 == ItemAt(f.default, j)
  {
    assert IsSlice(f.default) by { TypeBits(f.default); }
    var m := InDefaultsFrom(f.default, ix, 0);
    assert !m.CoerceFailed?;
  }

  // ---------------------------------------------------------------------
  // Help-text formatters

  function GetDefaultLen(flags: seq<Flag>, h: nat): int
    requires ArenaOk(flags) && h < |flags|
  {
    SliceLen(flags[Resolve(flags, h)].default)
  }

  /**
   * GetTypeTag: the explicit tag of the flag an alias stands for, else
   * ENUM for several defaults, else INT, NUM, FLT or STR after the base
   * type of the target, else "".
   */
  function GetTypeTag(flags: seq<Flag>, h: nat): (tag: string)
    requires ArenaOk(flags) && h < |flags|
    ensures var f := flags[Resolve(flags, h)];
      tag == "" <==> (f.valueTypeTag == "" && SliceLen(f.default) <= 1 &&
        !Tst(Type(f.value), IntT) && !Tst(Type(f.value), UintT) &&
        !Tst(Type(f.value), FloatT) && !Tst(Type(f.value), StringT))
  {
    var f := flags[Resolve(flags, h)];
    if |f.valueTypeTag| > 0 then f.valueTypeTag
    else if GetDefaultLen(flags, h) > 1 then "ENUM"
    else if Tst(Type(f.value), IntT) then "INT"
    else if Tst(Type(f.value), UintT) then "NUM"
    else if Tst(Type(f.value), FloatT) then "FLT"
    else if Tst(Type(f.value), StringT) then "STR"
    else ""
  }

  /**
   * Flag.String: "-x, --long", "--long" or "-x", whichever halves are
   * defined (a long counts only from two bytes on).
   */
  function String(f: Flag): (s: string)
    ensures s == "" <==> f.short == NoShort && |f.long| <= 1
    ensures f.short != NoShort ==> |s| >= 2 && s[..2] == "-" + RuneString(f.short)
    ensures |f.long| > 1 ==> |s| >= |f.long| + 2 && s[|s| - |f.long| - 2..] == "--" + f.long
  {
    if f.short != NoShort && |f.long| > 1 then "-" + RuneString(f.short) + ", --" + f.long
    else if |f.long| > 1 then "--" + f.long
    else if f.short != NoShort then "-" + RuneString(f.short)
    else ""
  }

  /**
   * FormatShort: "-NUM" for the -NUM flag, "" without a short, else "-x"
   * followed by the type tag: " TAG", or "[TAG]" when the default is
   * optional; an alias or an untagged flag shows no tag.
   */
  function FormatShort(flags: seq<Flag>, h: nat): (s: string)
    requires ArenaOk(flags) && h < |flags|
    ensures flags[h].short == NoShort ==> s == (if flags[h].long == NoLong then "-NUM" else "")
    ensures flags[h].short != NoShort ==> |s| >= 2 && s[..2] == "-" + RuneString(flags[h].short)
    ensures flags[h].short != NoShort && (TstAliasBits(flags[h].ftype) || GetTypeTag(flags, h) == "") ==> |s| == 2
  {
    var f := flags[h];
    if f.short == NoShort then
      if f.long == NoLong then "-NUM" else ""
    else
      var tag := GetTypeTag(flags, h);
      if |tag| == 0 || TstAliasBits(f.ftype) then "-" + RuneString(f.short)
      else if Tst(f.ftype, DefOptionalBit) then "-" + RuneString(f.short) + "[" + tag + "]"
      else "-" + RuneString(f.short) + " " + tag
  }

  /**
   * FormatLong: "" without a long, else "--long" followed by "=TAG", or
   * "[=TAG]" when the default is optional; an alias or an untagged flag
   * shows no tag.
   */
  function FormatLong(flags: seq<Flag>, h: nat): (s: string)
    requires ArenaOk(flags) && h < |flags|
    ensures flags[h].long == NoLong <==> s == ""
    ensures flags[h].long != NoLong ==> |s| >= |flags[h].long| + 2 && s[..|flags[h].long| + 2] == "--" + flags[h].long
    ensures flags[h].long != NoLong && (TstAliasBits(flags[h].ftype) || GetTypeTag(flags, h) == "") ==>
      s == "--" + flags[h].long
  {
    var f := flags[h];
    if f.long == NoLong then ""
    else
      var tag := GetTypeTag(flags, h);
      if |tag| == 0 || TstAliasBits(f.ftype) then "--" + f.long
      else if Tst(f.ftype, DefOptionalBit) then "--" + f.long + "[=" + tag + "]"
      else "--" + f.long + "=" + tag
  }

  /**
   * FlagString: the short form (four spaces when there is none), then
   * ", " and the long form when both exist.
   */
  function FlagString(flags: seq<Flag>, h: nat): (s: string)
    requires ArenaOk(flags) && h < |flags|
    ensures flags[h].long == NoLong ==> s == (if flags[h].short == NoShort then "-NUM" else FormatShort(flags, h))
    ensures flags[h].long != NoLong && flags[h].short == NoShort ==> s == "    " + FormatLong(flags, h)
    ensures flags[h].long != NoLong && flags[h].short != NoShort ==>
      s == FormatShort(flags, h) + ", " + FormatLong(flags, h)
  {
    var short := FormatShort(flags, h);
    var short := if short == "" then "    " else short;
    if flags[h].long == NoLong then short
    else if flags[h].short == NoShort then short + FormatLong(flags, h)
    else short + ", " + FormatLong(flags, h)
  }

  /** SortKey: the short rune followed by the long name, or the long alone. */
  function SortKey(f: Flag): string {
    if f.short == NoShort then f.long else RuneString(f.short) + f.long
  }

  /** Strict lexicographic order on strings. */
  predicate LexLess(a: string, b: string)
    decreases |a|
  {
    if |a| == 0 then |b| > 0
    else if |b| == 0 then false
    else if a[0] != b[0] then a[0] < b[0]
    else LexLess(a[1..], b[1..])
  }

  function NamedFlag(short: Rune, long: string): Flag {
    Flag(Nil, long, short, ClearFlagType, 0, "", Nil, None, "", None, ",", [], None)
  }

  /**
   * The order SortKey gives interleaves longs without a short among
   * short-and-long flags: `--bat` sorts after `-a, --ant` and before
   * `-c, --cat`.
   */
  lemma SortKeyInterleaves()
    ensures SortKey(NamedFlag('a' as int, "ant")) == "aant"
    ensures SortKey(NamedFlag(NoShort, "bat")) == "bat"
    ensures LexLess(SortKey(NamedFlag('a' as int, "ant")), SortKey(NamedFlag(NoShort, "bat")))
    ensures LexLess(SortKey(NamedFlag(NoShort, "bat")), SortKey(NamedFlag('c' as int, "cat")))
  {
    assert RuneString('a' as int) == "a";
    assert RuneString('c' as int) == "c";
    assert "a" + "ant" == "aant";
    assert "c" + "cat" == "ccat";
  }

  // ---------------------------------------------------------------------
  // Flag predicates

  predicate IsAlias(f: Flag) { TstAliasBits(f.ftype) }
  predicate IsCounter(f: Flag) { Tst(f.ftype, CounterBit) }
  predicate IsRepeatable(f: Flag) { Tst(f.ftype, RepeatsBit) }
  predicate IsFileReader(f: Flag) { Tst(f.ftype, FileBit) }
  predicate IgnoreRepeats(f: Flag) { Tst(f.ftype, IgnoreRepeatsBit) }
  predicate IsScalar(f: Flag) { !IsSlice(f.value) }
  predicate IsBool(f: Flag) { Tst(Type(f.value), BoolT) }
  predicate IsNumber(f: Flag) { TstAnyNum(Type(f.value)) }
  predicate IsHyphenNum(f: Flag) { f.short == NoShort && f.long == NoLong }
  predicate HasCallback(f: Flag) { f.callback.Some? }

  /** An alias's storage target is nil, so an alias never counts as boolean. */
  lemma AliasNeverBool(cfg: Config, flags: seq<Flag>, h: nat, short: Rune, long: string)
    requires ArenaOk(flags) && h < |flags|
    requires NewAliasOf(cfg, flags, h, short, long).Ok?
    ensures NewAliasOf(cfg, flags, h, short, long).value.Some?
    ensures !IsBool(NewAliasOf(cfg, flags, h, short, long).value.value)
  {
  }

  // ---------------------------------------------------------------------
  // Options, construction and callbacks

  /**
   * The functional options. Obsolete() is Deprecated(). WithAlias,
   * WithDefault, WithOptionalDefault and InMutex reach into the flag set
   * and are applied there; the others only rewrite the flag.
   */
  datatype FlagOption =
    | WithParent
    | WithValue(text: string)
    | WithListSeparator(sep: char)
    | WithAlias(aliasShort: Rune, aliasLong: string, obsolete: bool)
    | WithDefault(def: Value)
    | WithOptionalDefault(optDef: Value)
    | WithRepeats(ignore: bool)
    | AsCounter
    | NotImplemented
    | Deprecated
    | WithTypeTag(tag: string)
    | WithCallback(cb: nat)
    | ReadFile
    | InMutex(name: string)

  predicate IsLocal(opt: FlagOption) {
    !opt.WithAlias? && !opt.WithDefault? && !opt.WithOptionalDefault? && !opt.InMutex?
  }

  /** The fields no local option touches: identity, storage, defaults and groups. */
  predicate SameCore(g: Flag, f: Flag) {
    g.long == f.long && g.short == f.short && g.count == f.count &&
    g.default == f.default && g.aliasFor == f.aliasFor && g.mutexes == f.mutexes
  }

  /** WithListSeparator: panics for the -NUM flag or a scalar target; else sets the separator. */
  function WithListSeparatorOf(f: Flag, sep: char): (c: Checked<Flag>)
    ensures c.Panic? <==> IsHyphenNum(f) || !IsSlice(f.value)
    ensures c.Ok? ==> c.value == f.(listSeparator := [sep])
  {
    if IsHyphenNum(f) then Panic("hyphen-num idiom cannot have a list separator")
    else if !IsSlice(f.value) then Panic("cannot set separator for non-list value")
    else Ok(f.(listSeparator := [sep]))
  }

  /**
   * WithRepeats: panics for the -NUM flag, a flag with a callback, a
   * counter or a slice target; else the flag becomes repeatable and
   * ignores repeats exactly when asked to.
   */
  function WithRepeatsOf(f: Flag, ignore: bool): (c: Checked<Flag>)
    ensures c.Panic? <==> IsHyphenNum(f) || HasCallback(f) || IsCounter(f) || !IsScalar(f)
    ensures c.Ok? ==> c.value == f.(ftype := RepeatsType(f.ftype, ignore))
  {
    if IsHyphenNum(f) then Panic("hyphen-num idiom cannot be repeated")
    else if HasCallback(f) then Panic("WithRepeats() is redundant if WithCallback() is used")
    else if IsCounter(f) then Panic("WithRepeats() is redundant if AsCounter() is used")
    else if !IsScalar(f) then Panic("WithRepeats() is redundant if the value is not a scalar")
    else
      Ok(f.(ftype := RepeatsType(f.ftype, ignore)))
  }

  /** The bits WithRepeats leaves: repeatable, ignoring repeats exactly when asked, the rest as before. */
  function RepeatsType(ft: FlagType, ignore: bool): (t: FlagType)
    ensures Tst(t, RepeatsBit) && (Tst(t, IgnoreRepeatsBit) <==> ignore)
    ensures t & !(RepeatsBit | IgnoreRepeatsBit) == ft & !(RepeatsBit | IgnoreRepeatsBit)
  {
    if ignore then ft | RepeatsBit | IgnoreRepeatsBit else (ft | RepeatsBit) & !IgnoreRepeatsBit
  }

  /** The bits AsCounter leaves: a counter, the rest (repeatability included) as before. */
  function CounterType(ft: FlagType): (t: FlagType)
    ensures Tst(t, CounterBit) && (Tst(t, RepeatsBit) <==> Tst(ft, RepeatsBit))
    ensures t & !CounterBit == ft & !CounterBit
  {
    ft | CounterBit
  }

  /**
   * AsCounter: panics for the -NUM flag, a flag with a callback, a slice
   * or non-numeric target, or a repeatable flag; else sets the counter bit.
   */
  function AsCounterOf(f: Flag): (c: Checked<Flag>)
    ensures c.Panic? <==> IsHyphenNum(f) || HasCallback(f) || !IsScalar(f) || !IsNumber(f) || IsRepeatable(f)
    ensures c.Ok? ==> c.value == f.(ftype := CounterType(f.ftype))
  {
    if IsHyphenNum(f) then Panic("hyphen-num idiom cannot be a counter")
    else if HasCallback(f) then Panic("cannot use flag with callback as counter")
    else if !IsScalar(f) then Panic("cannot use non-scalar as counter")
    else if !IsNumber(f) then Panic("counter variable must be a number")
    else if IsRepeatable(f) then Panic("WithRepeats() is irrelevant for counter")
    else Ok(f.(ftype := CounterType(f.ftype)))
  }

  /** WithCallback: panics for a counter; else installs the callback. */
  function WithCallbackOf(f: Flag, cb: nat): (c: Checked<Flag>)
    ensures c.Panic? <==> IsCounter(f)
    ensures c.Ok? ==> c.value == f.(callback := Some(cb))
  {
    if IsCounter(f) then Panic("callback supplied for counter")
    else Ok(f.(callback := Some(cb)))
  }

  /**
   * ReadFile: panics for the -NUM flag, a counter, a flag with a
   * callback, an alias or a scalar target; else sets the file bit.
   */
  function ReadFileOf(f: Flag): (c: Checked<Flag>)
    ensures c.Panic? <==> IsHyphenNum(f) || IsCounter(f) || HasCallback(f) || IsAlias(f) || !IsSlice(f.value)
    ensures c.Ok? ==> c.value == f.(ftype := SetBit(f.ftype, FileBit))
  {
    if IsHyphenNum(f) then Panic("hyphen-num idiom cannot be a file reader")
    else if IsCounter(f) then Panic("counter flag cannot be a file reader")
    else if HasCallback(f) then Panic("flag with callback cannot be a file reader")
    else if IsAlias(f) then Panic("alias flag cannot be a file reader")
    else if !IsSlice(f.value) then Panic("value of file reader flag must point at a slice")
    else Ok(f.(ftype := SetBit(f.ftype, FileBit)))
  }

  /**
   * A local option applied to a flag. Only the option's own field or bit
   * changes; the identity, the count, the defaults and the alias target
   * never do.
   */
  function ApplyLocal(f: Flag, opt: FlagOption): (c: Checked<Flag>)
    requires IsLocal(opt)
    ensures c.Ok? ==> SameCore(c.value, f)
    ensures c.Ok? && !opt.WithValue? ==> c.value.value == f.value
    ensures opt.WithParent? || opt.WithValue? || opt.WithTypeTag? || opt == NotImplemented || opt == Deprecated ==> c.Ok?
    ensures opt.WithValue? ==> c.value.value == Plain(S(opt.text))
    ensures opt == NotImplemented ==> Tst(c.value.ftype, NotImplementedBit)
    ensures opt == Deprecated ==> Tst(c.value.ftype, ObsoleteBit)
  {
    match opt
    case WithParent => Ok(f)
    case WithValue(text) => Ok(f.(value := Plain(S(text))))
    case WithListSeparator(sep) => WithListSeparatorOf(f, sep)
    case WithRepeats(ignore) => WithRepeatsOf(f, ignore)
    case AsCounter => AsCounterOf(f)
    case NotImplemented => Ok(f.(ftype := SetBit(f.ftype, NotImplementedBit)))
    case Deprecated => Ok(f.(ftype := SetBit(f.ftype, ObsoleteBit)))
    case WithTypeTag(tag) => Ok(f.(valueTypeTag := tag))
    case WithCallback(cb) => WithCallbackOf(f, cb)
    case ReadFile => ReadFileOf(f)
  }

  /**
   * NewFlag's checks, given what the type code of the target says
   * (pointer, slice, unsupported, unsigned) and its slice length `n`.
   */
  function NewFlagFrom(cfg: Config, ptr: bool, slice: bool, other: bool, uint: bool, n: int, value: Value, short: Rune, long: string, usage: string): (c: Checked<Option<Flag>>)
    ensures c == Ok(None) <==> !ptr || (slice && n != 0)
    ensures c.Panic? <==> (ptr && !(slice && n != 0) &&
      (other || IsValidPair(cfg, short, long) != Ok(true) ||
       (short == NoShort && long == NoLong && (slice || !uint))))
    ensures c.Ok? && c.value.Some? ==> var f := c.value.value;
      f.value == value && f.short == short && f.long == long && f.usage == usage &&
      f.count == 0 && f.aliasFor.None? && f.default == Nil && f.callback.None? && f.mutexes == [] &&
      f.listSeparator == cfg.defaultListSeparator &&
      f.ftype == (if slice then RepeatsBit else ClearFlagType)
  {
    if !ptr then Ok(None)
    else if slice && n != 0 then Ok(None)
    else if other then Panic("value type is not supported")
    else match IsValidPair(cfg, short, long)
      case Panic(why) => Panic(why)
      case Ok(ok) =>
        if !ok then Panic("flag pair is not valid or not permitted")
        else if short == NoShort && long == NoLong && (slice || !uint) then
          Panic("a scalar unsigned integer is required for the -NUM idiom")
        else
          Ok(Some(Flag(value, long, short, if slice then RepeatsBit else ClearFlagType, 0, "",
                       Nil, None, usage, None, cfg.defaultListSeparator, [], None)))
  }

  /**
   * NewFlag before its options: nil for a target that is not a pointer
   * or is a non-empty slice; a panic for an unsupported target, an
   * invalid pair, or a -NUM flag whose target is not a scalar unsigned
   * integer; otherwise a fresh flag, repeatable when its target is a
   * slice, with a count of zero and no default, alias or callback.
   */
  function NewFlagOf(cfg: Config, value: Value, short: Rune, long: string, usage: string): (c: Checked<Option<Flag>>)
    ensures var vt := Type(value);
      c == Ok(None) <==> !Tst(vt, PointerT) || (Tst(vt, SliceT) && SliceLen(value) != 0)
    ensures var vt := Type(value);
      c.Panic? <==> (Tst(vt, PointerT) && !(Tst(vt, SliceT) && SliceLen(value) != 0) &&
        (Tst(vt, OtherT) || IsValidPair(cfg, short, long) != Ok(true) ||
         (short == NoShort && long == NoLong && (Tst(vt, SliceT) || !Tst(vt, UintT)))))
    ensures c.Ok? && c.value.Some? ==> var f := c.value.value;
      f.value == value && f.short == short && f.long == long && f.usage == usage &&
      f.count == 0 && f.aliasFor.None? && f.default == Nil && f.callback.None? && f.mutexes == [] &&
      f.listSeparator == cfg.defaultListSeparator &&
      f.ftype == (if Tst(Type(value), SliceT) then RepeatsBit else ClearFlagType)
  {
    var vt := Type(value);
    NewFlagFrom(cfg, Tst(vt, PointerT), Tst(vt, SliceT), Tst(vt, OtherT), Tst(vt, UintT), SliceLen(value), value, short, long, usage)
  }

  /** In a valid pair the short is NoShort or a valid short. */
  lemma PairShortValid(cfg: Config, short: Rune, long: string)
    requires IsValidPair(cfg, short, long) == Ok(true)
    ensures short == NoShort || IsValidShort(cfg, short) == Ok(true)
  {
  }

  /**
   * The bits of an alias: those of its target, plus the short-alias bit
   * when the alias's short is NoShort or valid.
   */
  function AliasType(cfg: Config, ft: FlagType, short: Rune): (t: FlagType)
    ensures short == NoShort || IsValidShort(cfg, short) == Ok(true) ==> Tst(t, ShortAliasBit) && TstAliasBits(t)
    ensures t & !ShortAliasBit == ft & !ShortAliasBit
  {
    if short == NoShort || IsValidShort(cfg, short) == Ok(true) then SetBit(ft, ShortAliasBit) else ft
  }

  /**
   * NewAlias before its options: an invalid pair panics; otherwise a flag
   * with no target of its own, standing for `h`, with `h`'s bits plus the
   * short-alias bit and count -1.
   */
  function NewAliasOf(cfg: Config, flags: seq<Flag>, h: nat, short: Rune, long: string): (c: Checked<Option<Flag>>)
    requires ArenaOk(flags) && h < |flags|
    ensures c.Panic? <==> IsValidPair(cfg, short, long) != Ok(true)
    ensures c.Ok? ==> c.value.Some?
    ensures c.Ok? ==> var a := c.value.value;
      a.value == Nil && a.short == short && a.long == long && a.aliasFor == Some(h) &&
      a.count == -1 && IsAlias(a) && a.callback.None? && a.mutexes == [] &&
      a.ftype & !ShortAliasBit == flags[h].ftype & !ShortAliasBit
  {
    match IsValidPair(cfg, short, long)
    case Panic(why) => Panic(why)
    case Ok(ok) =>
      if !ok then Panic("short/long pair not valid in NewAlias()")
      else
        PairShortValid(cfg, short, long);
        var t := AliasType(cfg, flags[h].ftype, short);
        if !TstAliasBits(t) then Ok(None)
        else Ok(Some(Flag(Nil, long, short, t, -1, "", Nil, Some(h), "", None, "", [], None)))
  }

  /** The file-bit half of EnterCallback: the file bit moves into the saved-file bit. */
  function SaveFileBit(ft: FlagType): (r: FlagType)
    ensures !Tst(r, FileBit) && (Tst(r, SavedFileBit) <==> Tst(ft, FileBit))
    ensures r & !(FileBit | SavedFileBit) == ft & !(FileBit | SavedFileBit)
  {
    (if ft & FileBit != 0 then ft | SavedFileBit else ft & !SavedFileBit) & !FileBit
  }

  /** The file-bit half of ExitCallback: the file bit is copied back from the saved-file bit. */
  function RestoreFileBit(ft: FlagType): (r: FlagType)
    ensures Tst(r, FileBit) <==> Tst(ft, SavedFileBit)
    ensures r & !FileBit == ft & !FileBit
  {
    if ft & SavedFileBit != 0 then ft | FileBit else ft & !FileBit
  }

  /** Restoring after saving gives back every bit but the saved-file bit. */
  lemma RestoreSaveFileBit(ft: FlagType)
    ensures RestoreFileBit(SaveFileBit(ft)) & !SavedFileBit == ft & !SavedFileBit
  {
  }

  /**
   * EnterCallback: without a callback it panics; otherwise the callback
   * is saved and cleared, and the file bit is saved and cleared, so that
   * a Set from inside the callback neither recurses nor reads a file.
   */
  function EnterCallback(f: Flag): (c: Checked<Flag>)
    ensures c.Panic? <==> f.callback.None?
    ensures c.Ok? ==> c.value == f.(callback := None, savedCallback := f.callback, ftype := SaveFileBit(f.ftype))
  {
    if f.callback.None? then Panic("cannot enter callback if there is no callback")
    else Ok(f.(savedCallback := f.callback, callback := None, ftype := SaveFileBit(f.ftype)))
  }

  /**
   * ExitCallback: with a callback present it panics; otherwise the saved
   * callback and the saved file bit are restored.
   */
  function ExitCallback(f: Flag): (c: Checked<Flag>)
    ensures c.Panic? <==> f.callback.Some?
    ensures c.Ok? ==> c.value == f.(callback := f.savedCallback, ftype := RestoreFileBit(f.ftype))
  {
    if f.callback.Some? then Panic("cannot exit callback without prior call to EnterCallback()")
    else Ok(f.(callback := f.savedCallback, ftype := RestoreFileBit(f.ftype)))
  }

  /**
   * ExitCallback undoes EnterCallback: the callback and the file bit
   * come back, and inside the callback the flag neither calls back nor
   * reads a file.
   */
  lemma EnterExitRestores(f: Flag)
    requires f.callback.Some?
    ensures EnterCallback(f).Ok? && !HasCallback(EnterCallback(f).value) && !IsFileReader(EnterCallback(f).value)
    ensures ExitCallback(EnterCallback(f).value).Ok?
    ensures var g := ExitCallback(EnterCallback(f).value).value;
      g.callback == f.callback && (IsFileReader(g) <==> IsFileReader(f)) &&
      g.ftype & !SavedFileBit == f.ftype & !SavedFileBit &&
      g == f.(savedCallback := f.callback, ftype := g.ftype)
  {
    RestoreSaveFileBit(f.ftype);
  }
}
