/** What a configuration file says: its blocks, their spelling as lexemes, and the entry they
    select (config/grammar.c, config/grammar.y, config/config_parser.h). */
module ConfigLanguage {
  import opened Words

  const CONFIG_STR_LENGTH := 1024
  const NUM := 3
  const SYSMAPTOK := 20
  const WORD := 22
  const FILENAME := 23
  const QUOTE := 24
  const OBRACE := 25
  const EBRACE := 26
  const SEMICOLON := 27
  const EQUALS := 28

  /** A grammar symbol read from the file; only numbers, words and file names carry text. */
  datatype Lexeme = Lexeme(sym: int, text: string)

  predicate CarriesText(sym: int) {
    sym == NUM || sym == WORD || sym == FILENAME
  }

  // ----- the entry and its semantic actions ---------------------------------------------

  /** What the actions depend on besides the tokens: the domain looked for and libc's conversions. */
  datatype Env = Env(target: string, strtol: string -> int, strtoull: string -> U64)

  /** vmi_config_entry_t: slots 0..7 are the eight int words of the offsets union (the Linux
      members alias the first six), 8 and 9 are kdvb and sysproc. */
  datatype Entry = Entry(name: string, sysmap: string, ostype: string, slots: seq<int>)

  const ZERO := Entry("", "", "", [0, 0, 0, 0, 0, 0, 0, 0, 0, 0])

  datatype Value = Text(text: string) | Word(word: int)

  const SYSMAP_FIELD := 10
  const OSTYPE_FIELD := 11

  /** The member of the entry that each of the eighteen keys (symbols 4..21) writes. */
  function FieldOf(key: int): (f: int)
    requires 4 <= key <= 21
    ensures 0 <= f <= 11
  {
    if key <= 6 then key - 4            // linux tasks, mm, pid
    else if key == 7 then 5             // linux name
    else if key <= 9 then key - 5       // linux pgd, addr
    else key - 10                       // windows ntoskrnl .. pname, kdvb, sysproc, sysmap, ostype
  }

  function Get(e: Entry, field: int): Value
    requires 0 <= field <= 11 && |e.slots| == 10
  {
    if field == SYSMAP_FIELD then Text(e.sysmap)
    else if field == OSTYPE_FIELD then Text(e.ostype)
    else Word(e.slots[field])
  }

  /** Storing a long in an int. */
  function Int32(v: int): (r: int)
    ensures -0x8000_0000 <= r < 0x8000_0000
    ensures (r - v) % 0x1_0000_0000 == 0
  {
    var low := v % 0x1_0000_0000;
    if low < 0x8000_0000 then low else low - 0x1_0000_0000
  }

  /** snprintf("%s") into a buffer of CONFIG_STR_LENGTH bytes. */
  function Truncated(s: string): string {
    if |s| < CONFIG_STR_LENGTH then s else s[..CONFIG_STR_LENGTH - 1]
  }

  /** The first 1023 characters, or all of them. */
  lemma TruncatedIs(s: string)
    ensures Truncated(s) <= s && |Truncated(s)| == if |s| < 1023 then |s| else 1023
  {
  }

  function ValueOf(env: Env, key: int, text: string): Value
    requires 4 <= key <= 21
  {
    if key >= SYSMAPTOK then Text(Truncated(text))
    else if key >= 18 then Word(env.strtoull(text))
    else Word(Int32(env.strtol(text)))
  }

  function Put(e: Entry, field: int, v: Value): Entry
    requires 0 <= field <= 11 && |e.slots| == 10 && (v.Text? <==> field >= SYSMAP_FIELD)
  {
    if field == SYSMAP_FIELD then e.(sysmap := v.text)
    else if field == OSTYPE_FIELD then e.(ostype := v.text)
    else e.(slots := e.slots[field := v.word])
  }

  function Assigned(env: Env, e: Entry, key: int, text: string): (r: Entry)
    requires 4 <= key <= 21 && |e.slots| == 10
    ensures |r.slots| == 10
  {
    Put(e, FieldOf(key), ValueOf(env, key, text))
  }

  /** entry_done: keep the finished block if it is the domain looked for. */
  function Done(env: Env, tmp: Entry, entry: Entry): Entry {
    if tmp.name == env.target then tmp else entry
  }

  // ----- reading a file -----------------------------------------------------------------

  /** What yyparse returns, and what it leaves in the two globals. */
  datatype Outcome = Outcome(result: int, tmp: Entry, entry: Entry)

  function Peek(ls: seq<Lexeme>): int {
    if ls == [] then 0 else ls[0].sym
  }

  function Domains(env: Env, ls: seq<Lexeme>, tmp: Entry, entry: Entry): Outcome
    requires |tmp.slots| == 10
    decreases |ls|
  {
    if ls == [] then Outcome(0, tmp, entry)
    else if ls[0].sym == WORD then AfterWord(env, ls[0].text, ls[1..], tmp, entry)
    else Outcome(1, tmp, entry)
  }

  function AfterWord(env: Env, w: string, ls: seq<Lexeme>, tmp: Entry, entry: Entry): Outcome
    requires |tmp.slots| == 10
    decreases |ls|
  {
    if Peek(ls) == OBRACE then Body(env, w, ls[1..], tmp, entry) else Outcome(1, tmp, entry)
  }

  function Body(env: Env, w: string, ls: seq<Lexeme>, tmp: Entry, entry: Entry): Outcome
    requires |tmp.slots| == 10
    decreases |ls|, 1
  {
    if Peek(ls) == EBRACE then
      Domains(env, ls[1..], ZERO, Done(env, tmp.(name := Truncated(w)), entry))
    else if 4 <= Peek(ls) <= 21 then AfterKey(env, w, ls[0].sym, ls[1..], tmp, entry)
    else AfterAssignment(env, w, ls, tmp, entry)
  }

  function AfterKey(env: Env, w: string, key: int, ls: seq<Lexeme>, tmp: Entry, entry: Entry): Outcome
    requires |tmp.slots| == 10 && 4 <= key <= 21
    decreases |ls|
  {
    if Peek(ls) == EQUALS then AfterEquals(env, w, key, ls[1..], tmp, entry) else Outcome(1, tmp, entry)
  }

  function AfterEquals(env: Env, w: string, key: int, ls: seq<Lexeme>, tmp: Entry, entry: Entry): Outcome
    requires |tmp.slots| == 10 && 4 <= key <= 21
    decreases |ls|
  {
    if key < SYSMAPTOK && Peek(ls) == NUM then
      AfterAssignment(env, w, ls[1..], Assigned(env, tmp, key, ls[0].text), entry)
    else if SYSMAPTOK <= key && Peek(ls) == QUOTE then AfterQuote(env, w, key, ls[1..], tmp, entry)
    else Outcome(1, tmp, entry)
  }

  function Quoted(key: int): int {
    if key == SYSMAPTOK then FILENAME else WORD
  }

  function AfterQuote(env: Env, w: string, key: int, ls: seq<Lexeme>, tmp: Entry, entry: Entry): Outcome
    requires |tmp.slots| == 10 && SYSMAPTOK <= key <= 21
    decreases |ls|
  {
    if Peek(ls) == Quoted(key) then AfterText(env, w, key, ls[0].text, ls[1..], tmp, entry)
    else Outcome(1, tmp, entry)
  }

  function AfterText(env: Env, w: string, key: int, text: string, ls: seq<Lexeme>, tmp: Entry, entry: Entry): Outcome
    requires |tmp.slots| == 10 && SYSMAPTOK <= key <= 21
    decreases |ls|
  {
    if Peek(ls) == QUOTE then AfterAssignment(env, w, ls[1..], Assigned(env, tmp, key, text), entry)
    else Outcome(1, tmp, entry)
  }

  function AfterAssignment(env: Env, w: string, ls: seq<Lexeme>, tmp: Entry, entry: Entry): Outcome
    requires |tmp.slots| == 10
    decreases |ls|, 0
  {
    if Peek(ls) == SEMICOLON then Body(env, w, ls[1..], tmp, entry) else Outcome(1, tmp, entry)
  }

  // ----- the language -------------------------------------------------------------------

  datatype Assignment = Assignment(key: int, text: string)
  datatype Block = Block(name: string, items: seq<Option<Assignment>>)

  predicate WellFormed(b: Block) {
    forall i :: 0 <= i < |b.items| && b.items[i].Some? ==> 4 <= b.items[i].value.key <= 21
  }

  /** (assignment? SEMICOLON): an item may be empty. */
  function SpellItem(item: Option<Assignment>): seq<Lexeme> {
    if item.None? then [Lexeme(SEMICOLON, "")]
    else if item.value.key < SYSMAPTOK then
      [Lexeme(item.value.key, ""), Lexeme(EQUALS, ""), Lexeme(NUM, item.value.text), Lexeme(SEMICOLON, "")]
    else
      [Lexeme(item.value.key, ""), Lexeme(EQUALS, ""), Lexeme(QUOTE, ""),
       Lexeme(Quoted(item.value.key), item.value.text), Lexeme(QUOTE, ""), Lexeme(SEMICOLON, "")]
  }

  function SpellItems(items: seq<Option<Assignment>>): seq<Lexeme> {
    if items == [] then [] else SpellItem(items[0]) + SpellItems(items[1..])
  }

  /** WORD OBRACE (assignment? SEMICOLON)* EBRACE. */
  function SpellBlock(b: Block): seq<Lexeme> {
    [Lexeme(WORD, b.name), Lexeme(OBRACE, "")] + SpellItems(b.items) + [Lexeme(EBRACE, "")]
  }

  function Spell(bs: seq<Block>): seq<Lexeme> {
    if bs == [] then [] else SpellBlock(bs[0]) + Spell(bs[1..])
  }

  // ----- what blocks mean ---------------------------------------------------------------

  predicate Writes(item: Option<Assignment>, field: int) {
    item.Some? && 4 <= item.value.key <= 21 && FieldOf(item.value.key) == field
  }

  function Applied(env: Env, item: Option<Assignment>, e: Entry): (r: Entry)
    requires |e.slots| == 10
    ensures |r.slots| == 10
  {
    if item.Some? && 4 <= item.value.key <= 21 then Assigned(env, e, item.value.key, item.value.text) else e
  }

  function Compiled(env: Env, items: seq<Option<Assignment>>, e: Entry): (r: Entry)
    requires |e.slots| == 10
    ensures |r.slots| == 10
  {
    if items == [] then e else Compiled(env, items[1..], Applied(env, items[0], e))
  }

  function EntryOf(env: Env, b: Block): Entry {
    Compiled(env, b.items, ZERO).(name := Truncated(b.name))
  }

  function Selected(env: Env, bs: seq<Block>, entry: Entry): Entry {
    if bs == [] then entry else Selected(env, bs[1..], Done(env, EntryOf(env, bs[0]), entry))
  }

  // ----- every spelled file is accepted, with the meaning of its blocks -----------------

  /** After a numeric key: EQUALS NUM SEMICOLON, or a failure that leaves the entry alone. */
  lemma NumberOrFailure(env: Env, w: string, key: int, ls: seq<Lexeme>, tmp: Entry, entry: Entry)
    requires |tmp.slots| == 10 && 4 <= key < SYSMAPTOK
    ensures var after := AfterKey(env, w, key, ls, tmp, entry);
            if |ls| >= 3 && ls[0].sym == EQUALS && ls[1].sym == NUM && ls[2].sym == SEMICOLON
            then after == Body(env, w, ls[1..][1..][1..], Assigned(env, tmp, key, ls[1].text), entry)
            else after.result == 1 && after.entry == entry
  {
    hide Assigned, Body;
    if Peek(ls) == EQUALS {
      var after := AfterEquals(env, w, key, ls[1..], tmp, entry);
      if Peek(ls[1..]) == NUM {
        assert after == AfterAssignment(env, w, ls[1..][1..], Assigned(env, tmp, key, ls[1].text), entry);
      }
    }
  }

  /** After sysmap or ostype: EQUALS QUOTE text QUOTE SEMICOLON, or a failure that leaves the entry alone. */
  lemma QuotedOrFailure(env: Env, w: string, key: int, ls: seq<Lexeme>, tmp: Entry, entry: Entry)
    requires |tmp.slots| == 10 && SYSMAPTOK <= key <= 21
    ensures var after := AfterKey(env, w, key, ls, tmp, entry);
            if |ls| >= 5 && ls[0].sym == EQUALS && ls[1].sym == QUOTE && ls[2].sym == Quoted(key)
               && ls[3].sym == QUOTE && ls[4].sym == SEMICOLON
            then after == Body(env, w, ls[1..][1..][1..][1..][1..], Assigned(env, tmp, key, ls[2].text), entry)
            else after.result == 1 && after.entry == entry
  {
    hide Assigned, Body;
    if Peek(ls) == EQUALS {
      var after := AfterEquals(env, w, key, ls[1..], tmp, entry);
      if Peek(ls[1..]) == QUOTE {
        var quote := AfterQuote(env, w, key, ls[1..][1..], tmp, entry);
        assert after == quote;
        if Peek(ls[1..][1..]) == Quoted(key) {
          var close := AfterText(env, w, key, ls[2].text, ls[1..][1..][1..], tmp, entry);
          assert quote == close;
          if Peek(ls[1..][1..][1..]) == QUOTE {
            assert close == AfterAssignment(env, w, ls[1..][1..][1..][1..], Assigned(env, tmp, key, ls[2].text), entry);
          }
        }
      }
    }
  }

  lemma ReadItem(env: Env, w: string, item: Option<Assignment>, rest: seq<Lexeme>, tmp: Entry, entry: Entry)
    requires |tmp.slots| == 10
    requires item.Some? ==> 4 <= item.value.key <= 21
    ensures Body(env, w, SpellItem(item) + rest, tmp, entry)
         == Body(env, w, rest, Applied(env, item, tmp), entry)
  {
    hide Assigned;
    var ls := SpellItem(item) + rest;
    if item.None? {
      assert ls[1..] == rest;
    } else if item.value.key < SYSMAPTOK {
      assert ls[1..][1..][1..][1..] == rest;
      NumberOrFailure(env, w, item.value.key, ls[1..], tmp, entry);
    } else {
      assert ls[1..][1..][1..][1..][1..][1..] == rest;
      QuotedOrFailure(env, w, item.value.key, ls[1..], tmp, entry);
    }
  }

  lemma {:induction false} ReadItems(env: Env, w: string, items: seq<Option<Assignment>>, rest: seq<Lexeme>,
                                     tmp: Entry, entry: Entry)
    requires |tmp.slots| == 10
    requires WellFormed(Block(w, items))
    ensures Body(env, w, SpellItems(items) + rest, tmp, entry)
         == Body(env, w, rest, Compiled(env, items, tmp), entry)
  {
    hide Body, SpellItem, Assigned;
    if items == [] {
      assert SpellItems(items) + rest == rest;
    } else {
      assert Block(w, items).items == items && Block(w, items[1..]).items == items[1..];
      assert SpellItems(items) + rest == SpellItem(items[0]) + (SpellItems(items[1..]) + rest);
      ReadItem(env, w, items[0], SpellItems(items[1..]) + rest, tmp, entry);
      ReadItems(env, w, items[1..], rest, Applied(env, items[0], tmp), entry);
    }
  }

  lemma ReadBlock(env: Env, b: Block, rest: seq<Lexeme>, entry: Entry)
    requires WellFormed(b)
    ensures Domains(env, SpellBlock(b) + rest, ZERO, entry)
         == Domains(env, rest, ZERO, Done(env, EntryOf(env, b), entry))
  {
    hide WellFormed, SpellItems, Compiled, Done, Truncated, Body;
    var tail := [Lexeme(EBRACE, "")] + rest;
    var ls := SpellBlock(b) + rest;
    assert ls[0] == Lexeme(WORD, b.name);
    assert ls[1..][0] == Lexeme(OBRACE, "");
    assert ls[1..][1..] == SpellItems(b.items) + tail;
    assert WellFormed(Block(b.name, b.items)) by {
      assert Block(b.name, b.items) == b;
    }
    ReadItems(env, b.name, b.items, tail, ZERO, entry);
    ReadBrace(env, b.name, rest, Compiled(env, b.items, ZERO), entry);
  }

  lemma ReadBrace(env: Env, w: string, rest: seq<Lexeme>, tmp: Entry, entry: Entry)
    requires |tmp.slots| == 10
    ensures Body(env, w, [Lexeme(EBRACE, "")] + rest, tmp, entry)
         == Domains(env, rest, ZERO, Done(env, tmp.(name := Truncated(w)), entry))
  {
    hide Domains, Done, Truncated;
    assert ([Lexeme(EBRACE, "")] + rest)[1..] == rest;
  }

  predicate AllWellFormed(bs: seq<Block>) {
    forall i :: 0 <= i < |bs| ==> WellFormed(bs[i])
  }

  /** A spelled file is accepted, and selects what its blocks select. */
  lemma {:induction false} SpelledIsAccepted(env: Env, bs: seq<Block>, entry: Entry)
    requires AllWellFormed(bs)
    ensures Domains(env, Spell(bs), ZERO, entry) == Outcome(0, ZERO, Selected(env, bs, entry))
  {
    hide Domains, SpellBlock, EntryOf, Done, WellFormed;
    if bs == [] {
      NoBlocks(env, entry);
    } else {
      ReadBlock(env, bs[0], Spell(bs[1..]), entry);
      SpelledIsAccepted(env, bs[1..], Done(env, EntryOf(env, bs[0]), entry));
    }
  }

  lemma NoBlocks(env: Env, entry: Entry)
    ensures Domains(env, [], ZERO, entry) == Outcome(0, ZERO, entry)
  {
  }

  // ----- every accepted file is spelled by some blocks ----------------------------------

  /** Lexemes as the lexer makes them: never end of input, and no text where none is carried. */
  predicate Canonical(ls: seq<Lexeme>) {
    forall i :: 0 <= i < |ls| ==> ls[i].sym != 0 && (CarriesText(ls[i].sym) || ls[i].text == "")
  }

  lemma CanonicalParts(ls: seq<Lexeme>, n: nat)
    requires Canonical(ls) && n <= |ls|
    ensures Canonical(ls[n..])
    ensures forall i :: 0 <= i < n ==> CarriesText(ls[i].sym) || ls[i].text == ""
  {
  }

  /** A block body goes on past a whole item, or fails inside it. */
  lemma CutItem(env: Env, w: string, ls: seq<Lexeme>, tmp: Entry, entry: Entry)
      returns (whole: bool, item: Option<Assignment>, rest: seq<Lexeme>)
    requires |tmp.slots| == 10 && Canonical(ls) && Peek(ls) != EBRACE
    ensures whole ==> (item.Some? ==> 4 <= item.value.key <= 21)
    ensures whole ==> ls == SpellItem(item) + rest && Canonical(rest)
    ensures whole ==> Body(env, w, ls, tmp, entry) == Body(env, w, rest, Applied(env, item, tmp), entry)
    ensures !whole ==> Body(env, w, ls, tmp, entry).result == 1 && Body(env, w, ls, tmp, entry).entry == entry
  {
    hide Assigned, Applied, Canonical;
    whole, item, rest := false, None, ls;
    if 4 <= Peek(ls) <= 21 {
      var key := ls[0].sym;
      if key < SYSMAPTOK {
        NumberOrFailure(env, w, key, ls[1..], tmp, entry);
        if |ls| >= 4 && ls[1].sym == EQUALS && ls[2].sym == NUM && ls[3].sym == SEMICOLON {
          whole, item, rest := true, Some(Assignment(key, ls[2].text)), ls[4..];
          CanonicalParts(ls, 4);
          assert ls == SpellItem(item) + rest;
        }
      } else {
        QuotedOrFailure(env, w, key, ls[1..], tmp, entry);
        if |ls| >= 6 && ls[1].sym == EQUALS && ls[2].sym == QUOTE && ls[3].sym == Quoted(key)
           && ls[4].sym == QUOTE && ls[5].sym == SEMICOLON
        {
          whole, item, rest := true, Some(Assignment(key, ls[3].text)), ls[6..];
          CanonicalParts(ls, 6);
          assert ls == SpellItem(item) + rest;
        }
      }
    } else if Peek(ls) == SEMICOLON {
      whole, item, rest := true, None, ls[1..];
      CanonicalParts(ls, 1);
      assert ls == SpellItem(item) + rest;
    }
    if whole {
      ReadItem(env, w, item, rest, tmp, entry);
    }
  }

  lemma NoItems(w: string)
    ensures WellFormed(Block(w, []))
  {
  }

  lemma ConsWellFormed(w: string, item: Option<Assignment>, items: seq<Option<Assignment>>)
    requires item.Some? ==> 4 <= item.value.key <= 21
    requires WellFormed(Block(w, items))
    ensures WellFormed(Block(w, [item] + items))
  {
    forall i | 0 <= i < |items| + 1 && ([item] + items)[i].Some?
      ensures 4 <= ([item] + items)[i].value.key <= 21
    {
      if i > 0 {
        assert Block(w, items).items[i - 1] == ([item] + items)[i];
      }
    }
  }

  /** A block body reaches its closing brace, or fails before it and leaves the entry alone. */
  lemma {:induction false} CutItems(env: Env, w: string, ls: seq<Lexeme>, tmp: Entry, entry: Entry)
      returns (whole: bool, items: seq<Option<Assignment>>, rest: seq<Lexeme>)
    requires |tmp.slots| == 10 && Canonical(ls)
    ensures WellFormed(Block(w, items))
    ensures whole ==> ls == SpellItems(items) + ([Lexeme(EBRACE, "")] + rest) && Canonical(rest)
    ensures !whole ==> Body(env, w, ls, tmp, entry).result == 1 && Body(env, w, ls, tmp, entry).entry == entry
    decreases |ls|
  {
    hide Body, Applied, SpellItem, WellFormed;
    whole, items, rest := false, [], ls;
    if Peek(ls) == EBRACE {
      whole, rest := true, ls[1..];
      assert ls == [Lexeme(EBRACE, "")] + rest;
      NoItems(w);
    } else {
      var item, next;
      whole, item, next := CutItem(env, w, ls, tmp, entry);
      if whole {
        SpellItemLength(item);
        whole, items, rest := CutItems(env, w, next, Applied(env, item, tmp), entry);
        ConsWellFormed(w, item, items);
        assert ([item] + items)[1..] == items;
        items := [item] + items;
        if whole {
          assert ls == SpellItems(items) + ([Lexeme(EBRACE, "")] + rest);
        }
      } else {
        NoItems(w);
      }
    }
  }

  lemma SpellItemLength(item: Option<Assignment>)
    ensures |SpellItem(item)| > 0
  {
  }

  /** Every file is some whole blocks and a remainder: it is accepted when the remainder is empty,
      and in either case the entry is the one the whole blocks select. */
  lemma {:induction false} CutBlocks(env: Env, ls: seq<Lexeme>, entry: Entry)
      returns (bs: seq<Block>, bad: seq<Lexeme>)
    requires Canonical(ls)
    ensures AllWellFormed(bs) && ls == Spell(bs) + bad
    ensures Domains(env, ls, ZERO, entry).result == if bad == [] then 0 else 1
    ensures Domains(env, ls, ZERO, entry).entry == Selected(env, bs, entry)
    decreases |ls|
  {
    hide Body, SpellItems, WellFormed, EntryOf, Done;
    bs, bad := [], ls;
    if ls != [] && ls[0].sym == WORD && Peek(ls[1..]) == OBRACE {
      var w := ls[0].text;
      var whole, items, rest := CutItems(env, w, ls[1..][1..], ZERO, entry);
      if whole {
        var b := Block(w, items);
        assert ls == SpellBlock(b) + rest;
        ReadBlock(env, b, rest, entry);
        bs, bad := CutBlocks(env, rest, Done(env, EntryOf(env, b), entry));
        assert ([b] + bs)[1..] == bs;
        bs := [b] + bs;
        assert ls == Spell(bs) + bad;
      }
    }
  }

  ghost predicate SpellsBlocks(ls: seq<Lexeme>) {
    exists bs :: AllWellFormed(bs) && Spell(bs) == ls
  }

  /** The accepted files are exactly (WORD OBRACE (assignment? SEMICOLON)* EBRACE)*. */
  lemma AcceptedLanguage(env: Env, ls: seq<Lexeme>, entry: Entry)
    requires Canonical(ls)
    ensures Domains(env, ls, ZERO, entry).result == 0 <==> SpellsBlocks(ls)
  {
    hide Domains, AllWellFormed, Spell, Canonical;
    if Domains(env, ls, ZERO, entry).result == 0 {
      var bs, bad := CutBlocks(env, ls, entry);
      assert Spell(bs) + [] == Spell(bs);
    }
    if SpellsBlocks(ls) {
      var bs :| AllWellFormed(bs) && Spell(bs) == ls;
      SpelledIsAccepted(env, bs, entry);
    }
  }

  // ----- what is selected ---------------------------------------------------------------

  predicate Matches(env: Env, b: Block) {
    Truncated(b.name) == env.target
  }

  predicate NoneMatch(env: Env, bs: seq<Block>) {
    forall j :: 0 <= j < |bs| ==> !Matches(env, bs[j])
  }

  lemma {:induction false} NothingSelected(env: Env, bs: seq<Block>, entry: Entry)
    requires NoneMatch(env, bs)
    ensures Selected(env, bs, entry) == entry
  {
    if bs != [] {
      assert !Matches(env, bs[0]);
      NothingSelected(env, bs[1..], entry);
    }
  }

  /** The last block with the target's name wins, whatever came before it. */
  lemma {:induction false} LastBlockWins(env: Env, bs: seq<Block>, i: nat, entry: Entry)
    requires i < |bs| && Matches(env, bs[i]) && NoneMatch(env, bs[i + 1..])
    ensures Selected(env, bs, entry) == EntryOf(env, bs[i])
  {
    if i == 0 {
      NothingSelected(env, bs[1..], EntryOf(env, bs[0]));
    } else {
      assert bs[1..][i - 1 + 1..] == bs[i + 1..];
      LastBlockWins(env, bs[1..], i - 1, Done(env, EntryOf(env, bs[0]), entry));
    }
  }

  predicate NoneWrites(items: seq<Option<Assignment>>, field: int) {
    forall j :: 0 <= j < |items| ==> !Writes(items[j], field)
  }

  lemma GetPut(e: Entry, field: int, v: Value, other: int)
    requires 0 <= field <= 11 && 0 <= other <= 11 && |e.slots| == 10 && (v.Text? <==> field >= SYSMAP_FIELD)
    ensures |Put(e, field, v).slots| == 10
    ensures Get(Put(e, field, v), other) == if other == field then v else Get(e, other)
  {
  }

  lemma {:induction false} UnwrittenIsKept(env: Env, items: seq<Option<Assignment>>, e: Entry, field: int)
    requires |e.slots| == 10 && 0 <= field <= 11 && NoneWrites(items, field)
    ensures Get(Compiled(env, items, e), field) == Get(e, field)
    decreases |items|
  {
    hide Put, Get, ValueOf;
    if items != [] {
      assert !Writes(items[0], field);
      assert NoneWrites(items[1..], field);
      if items[0].Some? && 4 <= items[0].value.key <= 21 {
        var a := items[0].value;
        PutTyped(env, a);
        GetPut(e, FieldOf(a.key), ValueOf(env, a.key, a.text), field);
      }
      UnwrittenIsKept(env, items[1..], Applied(env, items[0], e), field);
    }
  }

  lemma PutTyped(env: Env, a: Assignment)
    requires 4 <= a.key <= 21
    ensures ValueOf(env, a.key, a.text).Text? <==> FieldOf(a.key) >= SYSMAP_FIELD
  {
  }

  /** Within a block the last assignment to a member of the entry decides it. */
  lemma {:induction false} LastAssignmentWins(env: Env, items: seq<Option<Assignment>>, i: nat, e: Entry)
    requires |e.slots| == 10
    requires i < |items| && items[i].Some? && 4 <= items[i].value.key <= 21
    requires NoneWrites(items[i + 1..], FieldOf(items[i].value.key))
    ensures Get(Compiled(env, items, e), FieldOf(items[i].value.key))
         == ValueOf(env, items[i].value.key, items[i].value.text)
    decreases i
  {
    hide Put, Get, ValueOf;
    var a := items[i].value;
    if i == 0 {
      PutTyped(env, a);
      GetPut(e, FieldOf(a.key), ValueOf(env, a.key, a.text), FieldOf(a.key));
      UnwrittenIsKept(env, items[1..], Applied(env, items[0], e), FieldOf(a.key));
    } else {
      assert items[1..][i - 1 + 1..] == items[i + 1..];
      LastAssignmentWins(env, items[1..], i - 1, Applied(env, items[0], e));
    }
  }

  /** A member of the parsed entry is decided by the last assignment to it in the last block with
      the target's name, and by nothing in any other block. */
  lemma ParsedMember(env: Env, bs: seq<Block>, i: nat, k: nat)
    requires AllWellFormed(bs)
    requires i < |bs| && Matches(env, bs[i]) && NoneMatch(env, bs[i + 1..])
    requires k < |bs[i].items| && bs[i].items[k].Some?
    requires 4 <= bs[i].items[k].value.key <= 21
    requires NoneWrites(bs[i].items[k + 1..], FieldOf(bs[i].items[k].value.key))
    ensures var a := bs[i].items[k].value;
            var parsed := Domains(env, Spell(bs), ZERO, ZERO).entry;
            && |parsed.slots| == 10 && parsed.name == env.target
            && Get(parsed, FieldOf(a.key)) == ValueOf(env, a.key, a.text)
  {
    hide Domains, Spell, AllWellFormed, NoneMatch, NoneWrites, Compiled, ValueOf;
    SpelledIsAccepted(env, bs, ZERO);
    LastBlockWins(env, bs, i, ZERO);
    LastAssignmentWins(env, bs[i].items, k, ZERO);
  }

  /** A member that the deciding block does not assign is zero, whatever other blocks assign. */
  lemma ParsedDefault(env: Env, bs: seq<Block>, i: nat, field: int)
    requires AllWellFormed(bs)
    requires i < |bs| && Matches(env, bs[i]) && NoneMatch(env, bs[i + 1..])
    requires 0 <= field <= 11 && NoneWrites(bs[i].items, field)
    ensures var parsed := Domains(env, Spell(bs), ZERO, ZERO).entry;
            && |parsed.slots| == 10
            && Get(parsed, field) == if field >= SYSMAP_FIELD then Text("") else Word(0)
  {
    hide Domains, Spell, AllWellFormed, NoneMatch, NoneWrites, Compiled;
    SpelledIsAccepted(env, bs, ZERO);
    LastBlockWins(env, bs, i, ZERO);
    UnwrittenIsKept(env, bs[i].items, ZERO, field);
  }

  /** Without a block for the target the parsed entry is all zero. */
  lemma ParsedNothing(env: Env, bs: seq<Block>)
    requires AllWellFormed(bs) && NoneMatch(env, bs)
    ensures Domains(env, Spell(bs), ZERO, ZERO).entry == ZERO
  {
    hide Domains, Spell, AllWellFormed, NoneMatch;
    SpelledIsAccepted(env, bs, ZERO);
    NothingSelected(env, bs, ZERO);
  }
}
