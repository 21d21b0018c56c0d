/** What vmi_parse_config makes of a file, from the scanner's token codes to the members of the
    entry (config/grammar.c, config/config_parser.h). */
module ConfigFile {
  import opened Words
  import opened ConfigLanguage
  import opened ConfigParser

  // Token codes that carry text or delimit.
  const NUM_TOKEN := 258
  const WORD_TOKEN := 277
  const FILENAME_TOKEN := 278
  const QUOTE_TOKEN := 279
  const OBRACE_TOKEN := 280
  const EBRACE_TOKEN := 281
  const SEMICOLON_TOKEN := 282
  const EQUALS_TOKEN := 283

  // Token codes of the keys.
  const LINUX_TASKS := 259
  const LINUX_MM := 260
  const LINUX_PID := 261
  const LINUX_NAME := 262
  const LINUX_PGD := 263
  const LINUX_ADDR := 264
  const WIN_NTOSKRNL := 265
  const WIN_TASKS := 266
  const WIN_PDBASE := 267
  const WIN_PID := 268
  const WIN_PEB := 269
  const WIN_IBA := 270
  const WIN_PH := 271
  const WIN_PNAME := 272
  const WIN_KDVB := 273
  const WIN_SYSPROC := 274
  const SYSMAP := 275
  const OSTYPE := 276

  /** `code = text`; of sysmap and ostype the text is quoted. */
  datatype Setting = Setting(code: int, text: string)

  /** name { (setting? ;)* } */
  datatype Domain = Domain(name: string, settings: seq<Option<Setting>>)

  predicate Known(s: Option<Setting>) { s.Some? ==> LINUX_TASKS <= s.value.code <= OSTYPE }

  predicate AllKnown(ss: seq<Option<Setting>>) { forall i :: 0 <= i < |ss| ==> Known(ss[i]) }

  predicate WellSpelled(ds: seq<Domain>) { forall i :: 0 <= i < |ds| ==> AllKnown(ds[i].settings) }

  function SettingTokens(s: Option<Setting>): seq<Token> {
    if s.None? then [Token(SEMICOLON_TOKEN, "")]
    else if s.value.code < SYSMAP then
      [Token(s.value.code, ""), Token(EQUALS_TOKEN, ""), Token(NUM_TOKEN, s.value.text), Token(SEMICOLON_TOKEN, "")]
    else
      [Token(s.value.code, ""), Token(EQUALS_TOKEN, ""), Token(QUOTE_TOKEN, ""),
       Token(if s.value.code == SYSMAP then FILENAME_TOKEN else WORD_TOKEN, s.value.text),
       Token(QUOTE_TOKEN, ""), Token(SEMICOLON_TOKEN, "")]
  }

  function SettingsTokens(ss: seq<Option<Setting>>): seq<Token> {
    if ss == [] then [] else SettingTokens(ss[0]) + SettingsTokens(ss[1..])
  }

  function DomainTokens(d: Domain): seq<Token> {
    [Token(WORD_TOKEN, d.name), Token(OBRACE_TOKEN, "")] + SettingsTokens(d.settings) + [Token(EBRACE_TOKEN, "")]
  }

  function FileTokens(ds: seq<Domain>): seq<Token> {
    if ds == [] then [] else DomainTokens(ds[0]) + FileTokens(ds[1..])
  }

  /** The same token codes, with the same texts on numbers, words and file names. */
  predicate SameTokens(ts: seq<Token>, us: seq<Token>) {
    && |ts| == |us|
    && forall i :: 0 <= i < |ts| ==>
         ts[i].kind == us[i].kind
         && (ts[i].kind in {NUM_TOKEN, WORD_TOKEN, FILENAME_TOKEN} ==> ts[i].text == us[i].text)
  }

  // ----- the file as blocks ---------------------------------------------------------------

  function ItemOf(s: Option<Setting>): Option<Assignment> {
    if s.None? then None else Some(Assignment(s.value.code - 255, s.value.text))
  }

  function ItemsOf(ss: seq<Option<Setting>>): (r: seq<Option<Assignment>>)
    ensures |r| == |ss| && forall i :: 0 <= i < |ss| ==> r[i] == ItemOf(ss[i])
  {
    seq(|ss|, i requires 0 <= i < |ss| => ItemOf(ss[i]))
  }

  function BlockOf(d: Domain): Block { Block(d.name, ItemsOf(d.settings)) }

  function BlocksOf(ds: seq<Domain>): (r: seq<Block>)
    ensures |r| == |ds| && forall i :: 0 <= i < |ds| ==> r[i] == BlockOf(ds[i])
  {
    seq(|ds|, i requires 0 <= i < |ds| => BlockOf(ds[i]))
  }

  /** Texts that no action uses do not matter. */
  lemma {:induction false} UnusedTexts(ts: seq<Token>, us: seq<Token>)
    requires SameTokens(ts, us)
    ensures Lexemes(ts) == Lexemes(us)
    decreases |ts|
  {
    if ts != [] {
      assert SameTokens(ts[1..], us[1..]);
      UnusedTexts(ts[1..], us[1..]);
    }
  }

  /** One token of a file. */
  lemma OneToken(kind: int, text: string, rest: seq<Token>)
    requires NUM_TOKEN <= kind <= EQUALS_TOKEN
    ensures Lexemes([Token(kind, text)] + rest)
         == [Lexeme(kind - 255, if CarriesText(kind - 255) then text else "")] + Lexemes(rest)
  {
    assert ([Token(kind, text)] + rest)[1..] == rest;
  }

  lemma NumberLexemes(code: int, text: string, rest: seq<Token>)
    requires LINUX_TASKS <= code < SYSMAP
    ensures Lexemes(SettingTokens(Some(Setting(code, text))) + rest)
         == SpellItem(Some(Assignment(code - 255, text))) + Lexemes(rest)
  {
    hide Lexemes;
    var t3 := [Token(SEMICOLON_TOKEN, "")] + rest;
    var t2 := [Token(NUM_TOKEN, text)] + t3;
    var t1 := [Token(EQUALS_TOKEN, "")] + t2;
    OneToken(SEMICOLON_TOKEN, "", rest);
    OneToken(NUM_TOKEN, text, t3);
    OneToken(EQUALS_TOKEN, "", t2);
    OneToken(code, "", t1);
    assert SettingTokens(Some(Setting(code, text))) + rest == [Token(code, "")] + t1;
  }

  lemma TextLexemes(code: int, text: string, rest: seq<Token>)
    requires SYSMAP <= code <= OSTYPE
    ensures Lexemes(SettingTokens(Some(Setting(code, text))) + rest)
         == SpellItem(Some(Assignment(code - 255, text))) + Lexemes(rest)
  {
    hide Lexemes;
    var kind := if code == SYSMAP then FILENAME_TOKEN else WORD_TOKEN;
    var t5 := [Token(SEMICOLON_TOKEN, "")] + rest;
    var t4 := [Token(QUOTE_TOKEN, "")] + t5;
    var t3 := [Token(kind, text)] + t4;
    var t2 := [Token(QUOTE_TOKEN, "")] + t3;
    var t1 := [Token(EQUALS_TOKEN, "")] + t2;
    OneToken(SEMICOLON_TOKEN, "", rest);
    OneToken(QUOTE_TOKEN, "", t5);
    OneToken(kind, text, t4);
    OneToken(QUOTE_TOKEN, "", t3);
    OneToken(EQUALS_TOKEN, "", t2);
    OneToken(code, "", t1);
    assert SettingTokens(Some(Setting(code, text))) + rest == [Token(code, "")] + t1;
  }

  lemma SettingLexemes(s: Option<Setting>, rest: seq<Token>)
    requires Known(s)
    ensures Lexemes(SettingTokens(s) + rest) == SpellItem(ItemOf(s)) + Lexemes(rest)
  {
    hide Lexemes;
    if s.None? {
      OneToken(SEMICOLON_TOKEN, "", rest);
    } else if s.value.code < SYSMAP {
      NumberLexemes(s.value.code, s.value.text, rest);
    } else {
      TextLexemes(s.value.code, s.value.text, rest);
    }
  }

  lemma {:induction false} SettingsLexemes(ss: seq<Option<Setting>>, rest: seq<Token>)
    requires AllKnown(ss)
    ensures Lexemes(SettingsTokens(ss) + rest) == SpellItems(ItemsOf(ss)) + Lexemes(rest)
    decreases |ss|
  {
    hide Lexemes, SettingTokens, SpellItem, ItemOf;
    if ss == [] {
      assert SettingsTokens(ss) + rest == rest;
    } else {
      assert SettingsTokens(ss) + rest == SettingTokens(ss[0]) + (SettingsTokens(ss[1..]) + rest);
      assert ItemsOf(ss)[1..] == ItemsOf(ss[1..]);
      SettingLexemes(ss[0], SettingsTokens(ss[1..]) + rest);
      SettingsLexemes(ss[1..], rest);
    }
  }

  lemma DomainLexemes(d: Domain, rest: seq<Token>)
    requires AllKnown(d.settings)
    ensures Lexemes(DomainTokens(d) + rest) == SpellBlock(BlockOf(d)) + Lexemes(rest)
  {
    hide Lexemes, SettingsTokens, SpellItems, ItemsOf;
    var close := [Token(EBRACE_TOKEN, "")] + rest;
    var body := SettingsTokens(d.settings) + close;
    var open := [Token(OBRACE_TOKEN, "")] + body;
    assert DomainTokens(d) + rest == [Token(WORD_TOKEN, d.name)] + open;
    OneToken(WORD_TOKEN, d.name, open);
    OneToken(OBRACE_TOKEN, "", body);
    SettingsLexemes(d.settings, close);
    OneToken(EBRACE_TOKEN, "", rest);
  }

  lemma {:induction false} FileLexemes(ds: seq<Domain>)
    requires WellSpelled(ds)
    ensures Lexemes(FileTokens(ds)) == Spell(BlocksOf(ds)) && AllWellFormed(BlocksOf(ds))
    decreases |ds|
  {
    hide Lexemes, DomainTokens, SpellBlock;
    if ds == [] {
      EmptyFile();
    } else {
      assert BlocksOf(ds)[1..] == BlocksOf(ds[1..]);
      DomainLexemes(ds[0], FileTokens(ds[1..]));
      FileLexemes(ds[1..]);
      assert WellFormed(BlockOf(ds[0]));
      assert forall i :: 0 < i < |ds| ==> BlocksOf(ds)[i] == BlocksOf(ds[1..])[i - 1];
    }
  }

  lemma EmptyFile()
    ensures Lexemes([]) == []
  {
  }

  // ----- the parsed entry -----------------------------------------------------------------

  /** The place in the C struct that each key's member takes: the words of the offsets union, which
      Linux and Windows members share, then kdvb and sysproc, sysmap and ostype. */
  const PLACES: seq<int> := [0, 1, 2, 5, 3, 4, 0, 1, 2, 3, 4, 5, 6, 7, 8, 9, 10, 11]

  predicate TakesPlace(s: Option<Setting>, place: int) {
    s.Some? && LINUX_TASKS <= s.value.code <= OSTYPE && PLACES[s.value.code - LINUX_TASKS] == place
  }

  predicate NoneTakes(ss: seq<Option<Setting>>, place: int) {
    forall i :: 0 <= i < |ss| ==> !TakesPlace(ss[i], place)
  }

  /** The last domain with a name decides. */
  predicate IsLastNamed(ds: seq<Domain>, i: nat, name: string) {
    i < |ds| && ds[i].name == name && forall j :: i < j < |ds| ==> ds[j].name != name
  }

  lemma PlaceIsField(code: int)
    requires LINUX_TASKS <= code <= OSTYPE
    ensures FieldOf(code - 255) == PLACES[code - LINUX_TASKS]
  {
  }

  /** When a name matches the target: they are equal, or the name is longer than the 1023 characters
      that are kept of it, and those are the target. */
  lemma NameMatches(env: Env, b: Block)
    ensures Matches(env, b) <==>
              (b.name == env.target && |b.name| <= 1023)
              || (|env.target| == 1023 < |b.name| && env.target <= b.name)
  {
    TruncatedIs(b.name);
  }

  /** No name of the file is cut off to the target. */
  predicate NotCutOff(ds: seq<Domain>, target: string) {
    |target| < 1023 || (|target| == 1023 && forall j :: 0 <= j < |ds| ==> |ds[j].name| <= 1023)
  }

  lemma LastIsSelected(env: Env, ds: seq<Domain>, i: nat)
    requires IsLastNamed(ds, i, env.target) && NotCutOff(ds, env.target)
    ensures Matches(env, BlocksOf(ds)[i]) && NoneMatch(env, BlocksOf(ds)[i + 1..])
  {
    hide Matches;
    NameMatches(env, BlocksOf(ds)[i]);
    var later := BlocksOf(ds)[i + 1..];
    forall j | 0 <= j < |later| ensures !Matches(env, later[j]) {
      assert later[j] == BlockOf(ds[i + 1 + j]);
      NameMatches(env, later[j]);
    }
  }

  lemma NoneTakesIsNoneWrites(ss: seq<Option<Setting>>, place: int)
    requires NoneTakes(ss, place)
    ensures NoneWrites(ItemsOf(ss), place)
  {
    forall j | 0 <= j < |ss| ensures !Writes(ItemsOf(ss)[j], place) {
      assert !TakesPlace(ss[j], place);
      if ss[j].Some? && LINUX_TASKS <= ss[j].value.code <= OSTYPE {
        PlaceIsField(ss[j].value.code);
      }
    }
  }

  /** The entry of a file, and the value that one setting gives its place. */
  lemma {:induction false} PlaceOfSetting(env: Env, ts: seq<Token>, ds: seq<Domain>, i: nat, k: nat)
    requires WellSpelled(ds) && SameTokens(ts, FileTokens(ds))
    requires NotCutOff(ds, env.target) && IsLastNamed(ds, i, env.target)
    requires k < |ds[i].settings| && ds[i].settings[k].Some?
    requires LINUX_TASKS <= ds[i].settings[k].value.code <= OSTYPE
    requires NoneTakes(ds[i].settings[k + 1..], PLACES[ds[i].settings[k].value.code - LINUX_TASKS])
    ensures var s := ds[i].settings[k].value;
            var parsed := Domains(env, Lexemes(ts), ZERO, ZERO).entry;
            && |parsed.slots| == 10 && parsed.name == env.target
            && Get(parsed, PLACES[s.code - LINUX_TASKS]) == ValueOf(env, s.code - 255, s.text)
  {
    hide Lexemes, Domains, Spell, SameTokens, FileTokens, Matches, ValueOf, Get, NoneWrites, NoneTakes, FieldOf;
    var s := ds[i].settings[k].value;
    UnusedTexts(ts, FileTokens(ds));
    FileLexemes(ds);
    LastIsSelected(env, ds, i);
    PlaceIsField(s.code);
    NoneTakesIsNoneWrites(ds[i].settings[k + 1..], PLACES[s.code - LINUX_TASKS]);
    assert ItemsOf(ds[i].settings[k + 1..]) == BlocksOf(ds)[i].items[k + 1..];
    ParsedMember(env, BlocksOf(ds), i, k);
  }

  /** Each key, from its token code to its member: of the last domain that has the target's name, the
      last setting of a member decides it. Numbers are truncated to 32 bits, but for kdvb and sysproc,
      which have 64; texts shorter than 1024 characters are taken as they are. */
  lemma {:induction false} ParsedSetting(env: Env, ts: seq<Token>, ds: seq<Domain>, i: nat, k: nat)
    requires WellSpelled(ds) && SameTokens(ts, FileTokens(ds))
    requires NotCutOff(ds, env.target) && IsLastNamed(ds, i, env.target)
    requires k < |ds[i].settings| && ds[i].settings[k].Some?
    requires LINUX_TASKS <= ds[i].settings[k].value.code <= OSTYPE
    requires NoneTakes(ds[i].settings[k + 1..], PLACES[ds[i].settings[k].value.code - LINUX_TASKS])
    ensures var Setting(code, text) := ds[i].settings[k].value;
            var parsed := Domains(env, Lexemes(ts), ZERO, ZERO).entry;
            && parsed.name == ds[i].name && |parsed.slots| == 10
            && (code == LINUX_TASKS ==> parsed.slots[0] == Int32(env.strtol(text)))
            && (code == LINUX_MM ==> parsed.slots[1] == Int32(env.strtol(text)))
            && (code == LINUX_PID ==> parsed.slots[2] == Int32(env.strtol(text)))
            && (code == LINUX_PGD ==> parsed.slots[3] == Int32(env.strtol(text)))
            && (code == LINUX_ADDR ==> parsed.slots[4] == Int32(env.strtol(text)))
            && (code == LINUX_NAME ==> parsed.slots[5] == Int32(env.strtol(text)))
            && (code == WIN_NTOSKRNL ==> parsed.slots[0] == Int32(env.strtol(text)))
            && (code == WIN_TASKS ==> parsed.slots[1] == Int32(env.strtol(text)))
            && (code == WIN_PDBASE ==> parsed.slots[2] == Int32(env.strtol(text)))
            && (code == WIN_PID ==> parsed.slots[3] == Int32(env.strtol(text)))
            && (code == WIN_PEB ==> parsed.slots[4] == Int32(env.strtol(text)))
            && (code == WIN_IBA ==> parsed.slots[5] == Int32(env.strtol(text)))
            && (code == WIN_PH ==> parsed.slots[6] == Int32(env.strtol(text)))
            && (code == WIN_PNAME ==> parsed.slots[7] == Int32(env.strtol(text)))
            && (code == WIN_KDVB ==> parsed.slots[8] == env.strtoull(text))
            && (code == WIN_SYSPROC ==> parsed.slots[9] == env.strtoull(text))
            && (code == SYSMAP && |text| < 1024 ==> parsed.sysmap == text)
            && (code == OSTYPE && |text| < 1024 ==> parsed.ostype == text)
  {
    hide Lexemes, Domains, SameTokens, FileTokens, Int32, Truncated, NoneTakes;
    PlaceOfSetting(env, ts, ds, i, k);
    ShortTextIsKept(ds[i].settings[k].value.text);
  }

  lemma ShortTextIsKept(s: string)
    ensures |s| < 1024 ==> Truncated(s) == s
  {
    TruncatedIs(s);
  }

  /** A member that the deciding domain does not set is zero or empty. */
  lemma {:induction false} ParsedUnset(env: Env, ts: seq<Token>, ds: seq<Domain>, i: nat, place: int)
    requires WellSpelled(ds) && SameTokens(ts, FileTokens(ds))
    requires NotCutOff(ds, env.target) && IsLastNamed(ds, i, env.target)
    requires 0 <= place <= 11 && NoneTakes(ds[i].settings, place)
    ensures var parsed := Domains(env, Lexemes(ts), ZERO, ZERO).entry;
            && |parsed.slots| == 10 && (place < 10 ==> parsed.slots[place] == 0)
            && (place == 10 ==> parsed.sysmap == "") && (place == 11 ==> parsed.ostype == "")
  {
    hide Lexemes, Domains, Spell, SameTokens, FileTokens, Matches, NoneWrites, NoneTakes;
    UnusedTexts(ts, FileTokens(ds));
    FileLexemes(ds);
    LastIsSelected(env, ds, i);
    NoneTakesIsNoneWrites(ds[i].settings, place);
    ParsedDefault(env, BlocksOf(ds), i, place);
  }

  /** Without a domain of the target's name the entry is all zero. */
  lemma {:induction false} ParsedOther(env: Env, ts: seq<Token>, ds: seq<Domain>)
    requires WellSpelled(ds) && SameTokens(ts, FileTokens(ds))
    requires NotCutOff(ds, env.target) && forall j :: 0 <= j < |ds| ==> ds[j].name != env.target
    ensures Domains(env, Lexemes(ts), ZERO, ZERO).entry == ZERO
  {
    hide Lexemes, Domains, Spell, SameTokens, FileTokens, Matches;
    UnusedTexts(ts, FileTokens(ds));
    FileLexemes(ds);
    forall j | 0 <= j < |ds| ensures !Matches(env, BlocksOf(ds)[j]) {
      NameMatches(env, BlocksOf(ds)[j]);
    }
    ParsedNothing(env, BlocksOf(ds));
  }
}
