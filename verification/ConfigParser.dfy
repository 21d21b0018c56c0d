/** yyparse, its semantic actions and vmi_parse_config (config/grammar.c). */
module ConfigParser {
  import opened Words
  import opened GrammarTables
  import opened GrammarAutomaton
  import opened ConfigLanguage

  const YYEMPTY := -2
  const YYEOF := 0
  const YYTERROR := 1

  /** A token as yylex returns it: its code, and the text yylval then points to. */
  datatype Token = Token(kind: int, text: string)

  /** The lexemes of a token stream: up to the first code that is not positive. */
  function Lexemes(ts: seq<Token>): (ls: seq<Lexeme>)
    ensures Canonical(ls) && |ls| <= |ts|
    ensures 0 <= Peek(ls) < YYNTOKENS
  {
    if ts == [] || ts[0].kind <= YYEOF then []
    else
      var sym := YYTRANSLATE(ts[0].kind);
      [Lexeme(sym, if CarriesText(sym) then ts[0].text else "")] + Lexemes(ts[1..])
  }

  // ----- the state stack ----------------------------------------------------------------

  predicate IsState(s: int) {
    0 <= s < YYNSTATES
  }

  /** The state that lies below a state on the stack, whenever it is there. */
  function Below(s: int): (r: int)
    requires 0 < s < YYNSTATES
    ensures 0 <= r < s
  {
    if s == 1 then 0 else if s <= 4 then 1 else if s <= 6 then if s == 5 then 3 else 5
    else if s <= 44 then 6 else if s <= 62 then s - 38 else if s == 63 then 26
    else if s <= 81 then s - 19 else s - 2
  }

  function Depth(s: int): int {
    if s <= 1 then s + 1 else if s <= 4 then 3 else if s <= 6 then s - 1
    else if s <= 44 then 6 else if s <= 63 then 7 else if s <= 81 then 8
    else if s <= 83 then 9 else 10
  }

  function StackOf(s: int): (r: seq<int>)
    requires IsState(s)
    ensures |r| == Depth(s) && r[|r| - 1] == s
  {
    if s == 0 then [0] else StackOf(Below(s)) + [s]
  }

  function Up(s: int, n: nat): (r: int)
    requires IsState(s) && n < Depth(s)
    ensures IsState(r) && Depth(r) == Depth(s) - n
    decreases n, s
  {
    if n == 0 then s else Up(Below(s), n - 1)
  }

  lemma {:induction false} PopStack(s: int, n: nat)
    requires IsState(s) && n < Depth(s)
    ensures StackOf(s)[..Depth(s) - n] == StackOf(Up(s, n))
    decreases n
  {
    if n > 0 {
      PopStack(Below(s), n - 1);
      assert StackOf(s)[..Depth(s) - n] == StackOf(Below(s))[..Depth(Below(s)) - (n - 1)];
    }
  }

  /** Popping n states and pushing one that belongs on what is then on top gives its stack. */
  lemma ReduceStack(s: int, n: nat, to: int)
    requires IsState(s) && n < Depth(s) && 0 < to < YYNSTATES && Below(to) == Up(s, n)
    ensures var rest := StackOf(s)[..Depth(s) - n];
            IsState(rest[|rest| - 1]) && StackOf(to) == rest + [to]
  {
    hide Below, Depth, Up;
    PopStack(s, n);
  }

  // ----- what the parser will still compute ---------------------------------------------

  /** The outcome from a state on, given the values on the stack and the lexemes still to come. */
  function Expect(env: Env, s: int, vals: seq<string>, ls: seq<Lexeme>, tmp: Entry, entry: Entry): Outcome
    requires IsState(s) && |vals| == Depth(s) && |tmp.slots| == 10
  {
    if s == 2 then Outcome(0, tmp, entry)
    else if s <= 1 || s == 4 then Domains(env, ls, tmp, entry)
    else if s == 3 then AfterWord(env, vals[2], ls, tmp, entry)
    else if s <= 6 || s == 63 then Body(env, vals[2], ls, tmp, entry)
    else if s <= 24 then AfterKey(env, vals[2], s - 3, ls, tmp, entry)
    else if s == 25 then Domains(env, ls, ZERO, Done(env, tmp.(name := Truncated(vals[2])), entry))
    else if s <= 44 then AfterAssignment(env, vals[2], ls, tmp, entry)
    else if s <= 62 then AfterEquals(env, vals[2], s - 41, ls, tmp, entry)
    else if s <= 79 then AfterAssignment(env, vals[2], ls, Assigned(env, tmp, s - 60, vals[7]), entry)
    else if s <= 81 then AfterQuote(env, vals[2], s - 60, ls, tmp, entry)
    else if s <= 83 then AfterText(env, vals[2], s - 62, vals[8], ls, tmp, entry)
    else AfterAssignment(env, vals[2], ls, Assigned(env, tmp, s - 64, vals[8]), entry)
  }

  /** The semantic actions, on the values of the rule's right-hand side. */
  function Effect(env: Env, rule: int, rhs: seq<string>, tmp: Entry, entry: Entry): (r: (Entry, Entry))
    requires 2 <= rule <= YYNRULES && |rhs| == Length(rule) && |tmp.slots| == 10
    ensures |r.0.slots| == 10
  {
    if rule == 4 then (ZERO, Done(env, tmp.(name := Truncated(rhs[0])), entry))
    else if 26 <= rule <= 41 then (Assigned(env, tmp, rule - 22, rhs[2]), entry)
    else if rule >= 42 then (Assigned(env, tmp, rule - 22, rhs[3]), entry)
    else (tmp, entry)
  }

  /** Shifting a lexeme leaves the outcome as it was. */
  lemma ShiftKeeps(env: Env, s: int, vals: seq<string>, v: string, ls: seq<Lexeme>, tmp: Entry, entry: Entry, to: int)
    requires IsState(s) && |vals| == Depth(s) && |tmp.slots| == 10
    requires ls != [] && ls[0].sym != 0 && Automaton(s, ls[0].sym) == Shift(to)
    requires CarriesText(ls[0].sym) ==> v == ls[0].text
    ensures 0 < to < YYNSTATES && Below(to) == s && Depth(to) == Depth(s) + 1
    ensures Expect(env, to, vals + [v], ls[1..], tmp, entry) == Expect(env, s, vals, ls, tmp, entry)
  {
    hide Assigned, Done;
  }

  /** At the end of the input only the state between blocks shifts, and then the parser accepts. */
  lemma EndShift(env: Env, s: int, vals: seq<string>, v: string, after: seq<Lexeme>, tmp: Entry, entry: Entry, to: int)
    requires IsState(s) && |vals| == Depth(s) && |tmp.slots| == 10
    requires Automaton(s, 0) == Shift(to)
    ensures s == 1 && to == 2 && Below(to) == s && Depth(to) == Depth(s) + 1
    ensures Expect(env, to, vals + [v], after, tmp, entry) == Expect(env, s, vals, [], tmp, entry)
  {
  }

  /** A reduction, with its semantic action, leaves the outcome as it was. */
  lemma ReduceKeeps(env: Env, s: int, vals: seq<string>, v: string, ls: seq<Lexeme>, tmp: Entry, entry: Entry,
                    rule: int)
    requires IsState(s) && s != 2 && |vals| == Depth(s) && |tmp.slots| == 10
    requires Automaton(s, Peek(ls)) == Reduce(rule)
    ensures 2 <= rule <= YYNRULES && Length(rule) < Depth(s)
    ensures var to := GotoState(rule);
            var base := vals[..|vals| - Length(rule)];
            var r := Effect(env, rule, vals[|base|..], tmp, entry);
            && 0 < to < YYNSTATES && Below(to) == Up(s, Length(rule)) && Depth(to) == |base| + 1
            && Expect(env, to, base + [v], ls, r.0, r.1) == Expect(env, s, vals, ls, tmp, entry)
  {
    hide Assigned, Done;
  }

  lemma FailureIsExpected(env: Env, s: int, vals: seq<string>, ls: seq<Lexeme>, tmp: Entry, entry: Entry)
    requires IsState(s) && |vals| == Depth(s) && |tmp.slots| == 10
    requires Automaton(s, Peek(ls)) == Fail
    requires Canonical(ls)
    ensures Expect(env, s, vals, ls, tmp, entry) == Outcome(1, tmp, entry)
  {
  }

  /** No state can shift the error symbol. */
  lemma NoErrorToken(state: int)
    requires IsState(state)
    ensures var n := Pact(state) + YYTERROR; 0 <= n <= YYLAST ==> Check(n) != YYTERROR
  {
    hide Pact, Check;
    var n := Pact(state) + YYTERROR;
    if 0 <= n <= YYLAST {
      CheckIs(n);
    }
  }

  /** Bounds the reductions between two shifts. */
  function Rank(s: int): nat {
    if s == 1 || s == 26 then 1 else if s == 5 || s == 25 || s >= 63 then 3
    else if s == 0 || s == 4 || s == 6 || 27 <= s <= 44 then 2 else 0
  }

  lemma ReduceRank(s: int, sym: int, rule: int)
    requires IsState(s) && s != 2 && Automaton(s, sym) == Reduce(rule)
    ensures Rank(GotoState(rule)) < Rank(s)
    ensures 2 <= rule <= YYNRULES && 0 <= Length(rule) < Depth(s) <= 10
  {
  }

  lemma StartStack()
    ensures StackOf(0) == [0] && Depth(0) == 1
  {
  }

  lemma {:induction false} StackedStates(s: int)
    requires IsState(s)
    ensures forall i :: 0 <= i < |StackOf(s)| ==> IsState(StackOf(s)[i])
  {
    hide Depth, Below;
    if s > 0 {
      StackedStates(Below(s));
    }
  }

  lemma ShallowStack(s: int)
    requires IsState(s)
    ensures Depth(s) <= 10
  {
  }

  lemma EndRank()
    ensures Rank(2) < Rank(1)
  {
  }

  lemma AtFinal(env: Env, vals: seq<string>, ls: seq<Lexeme>, tmp: Entry, entry: Entry)
    requires |vals| == Depth(YYFINAL) && |tmp.slots| == 10
    ensures Expect(env, YYFINAL, vals, ls, tmp, entry) == Outcome(0, tmp, entry)
  {
  }

  class ConfigParser {
    const strtol: string -> int
    const strtoull: string -> U64
    var targetDomain: string
    var entry: Entry
    var tmpEntry: Entry
    var yylval: string
    var input: seq<Token>

    constructor (strtol: string -> int, strtoull: string -> U64, input: seq<Token>)
      ensures Valid() && this.input == input && this.strtol == strtol && this.strtoull == strtoull
    {
      this.strtol, this.strtoull, this.input := strtol, strtoull, input;
      targetDomain, entry, tmpEntry, yylval := "", ZERO, ZERO, "";
    }

    ghost predicate Valid()
      reads this
    {
      |tmpEntry.slots| == 10
    }

    ghost function Environment(): Env
      reads this
    {
      Env(targetDomain, strtol, strtoull)
    }

    method YyLex() returns (kind: int)
      modifies `yylval, `input
      ensures if old(input) == [] then kind == YYEOF && input == [] && yylval == old(yylval)
              else old(input) == [Token(kind, yylval)] + input
    {
      if input == [] {
        return YYEOF;
      }
      kind, yylval := input[0].kind, input[0].text;
      input := input[1..];
    }

    method EntryDone()
      modifies `entry, `tmpEntry
      ensures entry == Done(old(Environment()), old(tmpEntry), old(entry)) && tmpEntry == ZERO
    {
      if tmpEntry.name == targetDomain {
        entry := tmpEntry;
      }
      tmpEntry := ZERO;
    }

    method SetInt(slot: nat, value: int)
      requires Valid() && slot < 8
      modifies `tmpEntry
      ensures tmpEntry == old(tmpEntry).(slots := old(tmpEntry).slots[slot := Int32(value)])
    {
      tmpEntry := tmpEntry.(slots := tmpEntry.slots[slot := Int32(value)]);
    }

    /** The switch of yyreduce: the values of the right-hand side end at yyvs[yyvsp]. */
    method SemanticAction(rule: int, yyvs: array<string>, yyvsp: int)
      requires Valid() && 2 <= rule <= YYNRULES && Length(rule) <= yyvsp + 1 <= yyvs.Length && 0 <= yyvsp
      modifies `entry, `tmpEntry
      ensures (tmpEntry, entry) ==
        Effect(old(Environment()), rule, yyvs[yyvsp + 1 - Length(rule)..yyvsp + 1], old(tmpEntry), old(entry))
    {
      hide Done, Truncated, Int32;
      if rule == 4 {
        tmpEntry := tmpEntry.(name := Truncated(yyvs[yyvsp - 3]));
        EntryDone();
      } else if rule == 26 {        // linux tasks
        SetInt(0, strtol(yyvs[yyvsp]));
      } else if rule == 27 {        // linux mm
        SetInt(1, strtol(yyvs[yyvsp]));
      } else if rule == 28 {        // linux pid
        SetInt(2, strtol(yyvs[yyvsp]));
      } else if rule == 29 {        // linux name
        SetInt(5, strtol(yyvs[yyvsp]));
      } else if rule == 30 {        // linux pgd
        SetInt(3, strtol(yyvs[yyvsp]));
      } else if rule == 31 {        // linux addr
        SetInt(4, strtol(yyvs[yyvsp]));
      } else if rule == 32 {        // windows ntoskrnl
        SetInt(0, strtol(yyvs[yyvsp]));
      } else if rule == 33 {        // windows tasks
        SetInt(1, strtol(yyvs[yyvsp]));
      } else if rule == 34 {        // windows pdbase
        SetInt(2, strtol(yyvs[yyvsp]));
      } else if rule == 35 {        // windows pid
        SetInt(3, strtol(yyvs[yyvsp]));
      } else if rule == 36 {        // windows peb
        SetInt(4, strtol(yyvs[yyvsp]));
      } else if rule == 37 {        // windows iba
        SetInt(5, strtol(yyvs[yyvsp]));
      } else if rule == 38 {        // windows ph
        SetInt(6, strtol(yyvs[yyvsp]));
      } else if rule == 39 {        // windows pname
        SetInt(7, strtol(yyvs[yyvsp]));
      } else if rule == 40 {        // windows kdvb
        tmpEntry := tmpEntry.(slots := tmpEntry.slots[8 := strtoull(yyvs[yyvsp])]);
      } else if rule == 41 {        // windows sysproc
        tmpEntry := tmpEntry.(slots := tmpEntry.slots[9 := strtoull(yyvs[yyvsp])]);
      } else if rule == 42 {
        tmpEntry := tmpEntry.(sysmap := Truncated(yyvs[yyvsp - 1]));
      } else if rule == 43 {
        tmpEntry := tmpEntry.(ostype := Truncated(yyvs[yyvsp - 1]));
      }
    }

    /** The tokens not shifted yet: the lookahead, if there is one, and the input. */
    ghost function Pending(yychar: int): seq<Token>
      reads this
    {
      if yychar == YYEMPTY then input else if yychar <= YYEOF then [] else [Token(yychar, yylval)] + input
    }

    /** The first part of yybackup: make sure there is a lookahead, and translate it. */
    method Lookahead(yychar: int) returns (next: int, yytoken: int)
      requires yychar == YYEMPTY || YYEOF <= yychar
      modifies `yylval, `input
      ensures YYEOF <= next && 0 <= yytoken < YYNTOKENS
      ensures Lexemes(Pending(next)) == old(Lexemes(Pending(yychar)))
      ensures yytoken == Peek(Lexemes(Pending(next)))
      ensures |input| + (if next > 0 then 1 else 0) <= |old(input)| + (if yychar > 0 then 1 else 0)
      ensures next > 0 ==> Pending(next)[0] == Token(next, yylval) && Pending(next)[1..] == input
    {
      hide Canonical;
      next := yychar;
      if next == YYEMPTY {
        next := YyLex();
      }
      if next <= YYEOF {
        next, yytoken := YYEOF, 0;
      } else {
        yytoken := YYTRANSLATE(next);
      }
    }

    /** yybackup and yydefault: what to do next, looking ahead only where the state needs it. */
    method Decide(yystate: int, yychar: int) returns (next: int, action: Action)
      requires IsState(yystate)
      requires yychar == YYEMPTY || YYEOF <= yychar
      modifies `yylval, `input
      ensures next == YYEMPTY || YYEOF <= next
      ensures Lexemes(Pending(next)) == old(Lexemes(Pending(yychar)))
      ensures action == Automaton(yystate, Peek(Lexemes(Pending(next))))
      ensures action.Shift? ==> YYEOF <= next
      ensures |input| + (if next > 0 then 1 else 0) <= |old(input)| + (if yychar > 0 then 1 else 0)
    {
      hide Automaton, Canonical, Pact, Defact, Table, Check, Lexemes;
      if DefaultOnly(yystate) {
        next, action := yychar, Default(yystate);
        TablesAreAutomaton(yystate, Peek(Lexemes(Pending(yychar))));
      } else {
        var yytoken;
        next, yytoken := Lookahead(yychar);
        action := NextAction(yystate, yytoken);
        TablesAreAutomaton(yystate, yytoken);
      }
    }

    /** yyerrlab1: pop states until one can shift the error symbol. None can, so the parse aborts. */
    method Abort(yyss: array<int>, top: int, yystate: int)
      requires 0 <= top < yyss.Length && IsState(yystate)
      requires yyss[..top + 1] == StackOf(yystate)
    {
      StackedStates(yystate);
      assert forall i :: 0 <= i <= top ==> yyss[i] == StackOf(yystate)[i];
      var yyssp := top;
      while true
        invariant 0 <= yyssp <= top
        decreases yyssp
      {
        hide Pact, Check;
        var yyn := Pact(yyss[yyssp]);
        if yyn != YYPACT_NINF {
          yyn := yyn + YYTERROR;
          NoErrorToken(yyss[yyssp]);
          if 0 <= yyn <= YYLAST && Check(yyn) == YYTERROR {
            assert false;
          }
        }
        if yyssp == 0 {
          return;
        }
        yyssp := yyssp - 1;
      }
    }

    /** The stacks hold the one stack of their top state, and the values on it still lead to the
        outcome. */
    ghost predicate Running(yyss: array<int>, yyvs: array<string>, yyssp: int, yystate: int, yychar: int, goal: Outcome)
      reads this, yyss, yyvs
    {
      && Valid() && IsState(yystate)
      && yyss.Length == yyvs.Length == YYINITDEPTH
      && 0 <= yyssp < YYINITDEPTH && yyssp + 1 == Depth(yystate)
      && yyss[..yyssp + 1] == StackOf(yystate)
      && (yychar == YYEMPTY || YYEOF <= yychar)
      && Expect(Environment(), yystate, yyvs[..yyssp + 1], Lexemes(Pending(yychar)), tmpEntry, entry) == goal
    }

    /** Push a state and its value. */
    method Push(yyss: array<int>, yyvs: array<string>, yyssp: int, state: int, value: string)
      requires yyss.Length == yyvs.Length && -1 <= yyssp < yyss.Length - 1
      modifies yyss, yyvs
      ensures yyss[..yyssp + 2] == old(yyss[..yyssp + 1]) + [state]
      ensures yyvs[..yyssp + 2] == old(yyvs[..yyssp + 1]) + [value]
    {
      yyvs[yyssp + 1] := value;
      yyss[yyssp + 1] := state;
    }

    method Shift(yyss: array<int>, yyvs: array<string>, yyssp: int, yystate: int, yychar: int, to: int,
                 ghost goal: Outcome)
      requires Running(yyss, yyvs, yyssp, yystate, yychar, goal) && YYEOF <= yychar
      requires Automaton(yystate, Peek(Lexemes(Pending(yychar)))) == Action.Shift(to)
      modifies yyss, yyvs
      ensures Running(yyss, yyvs, yyssp + 1, to, YYEMPTY, goal)
      ensures yychar == 0 ==> yystate == 1 && to == 2
    {
      hide Automaton, Expect, Canonical, Below, Depth;
      ShallowStack(yystate);
      ghost var vals := yyvs[..yyssp + 1];
      ghost var ls := Lexemes(Pending(yychar));
      if yychar == 0 {
        EndShift(Environment(), yystate, vals, yylval, Lexemes(input), tmpEntry, entry, to);
      } else {
        assert ls[0].sym == YYTRANSLATE(yychar) && ls[1..] == Lexemes(input);
        ShiftKeeps(Environment(), yystate, vals, yylval, ls, tmpEntry, entry, to);
      }
      Push(yyss, yyvs, yyssp, to, yylval);
    }

    method ReduceBy(yyss: array<int>, yyvs: array<string>, yyssp: int, yystate: int, yychar: int, rule: int,
                    ghost goal: Outcome)
        returns (top: int, to: int)
      requires Running(yyss, yyvs, yyssp, yystate, yychar, goal) && yystate != YYFINAL
      requires Automaton(yystate, Peek(Lexemes(Pending(yychar)))) == Reduce(rule)
      modifies yyss, yyvs, `entry, `tmpEntry
      ensures Running(yyss, yyvs, top, to, yychar, goal)
      ensures Rank(to) < Rank(yystate)
    {
      hide Automaton, Expect, Canonical, Below, Depth, StackOf, Effect, Up, Rank;
      hide Goto, GotoState, Lexemes, Length, RuleLength;
      ghost var vals := yyvs[..yyssp + 1];
      ghost var ls := Lexemes(Pending(yychar));
      ReduceRank(yystate, Peek(ls), rule);
      LengthIs(rule);
      var yylen := RuleLength(rule);
      var yyval := yyvs[yyssp + 1 - yylen];
      ReduceKeeps(Environment(), yystate, vals, yyval, ls, tmpEntry, entry, rule);
      ReduceStack(yystate, yylen, GotoState(rule));
      assert yyvs[yyssp + 1 - yylen..yyssp + 1] == vals[|vals| - yylen..];
      SemanticAction(rule, yyvs, yyssp);
      top := yyssp - yylen;
      assert yyvs[..top + 1] == vals[..|vals| - yylen];
      assert yyss[..top + 1] == StackOf(yystate)[..top + 1];
      GotoIs(yyss[top], rule);
      to := Goto(yyss[top], rule);
      Push(yyss, yyvs, top, to, yyval);
      top := top + 1;
    }

    /** yyparse: whatever the tokens, it ends with the outcome that reading them block by block has,
        and the ten states its stack can hold never reach the growth code. */
    method YyParse() returns (yyresult: int)
      requires Valid()
      modifies this
      ensures Valid() && targetDomain == old(targetDomain)
      ensures Outcome(yyresult, tmpEntry, entry)
           == Domains(old(Environment()), Lexemes(old(input)), old(tmpEntry), old(entry))
    {
      hide Automaton, Canonical, Below, StackOf, Rank, Lexemes, Domains;
      var yyss, yyvs := new int[YYINITDEPTH], new string[YYINITDEPTH];
      var yyssp, yystate, yychar := 0, 0, YYEMPTY;
      yyss[0] := 0;
      ghost var goal := Domains(Environment(), Lexemes(input), tmpEntry, entry);
      StartStack();
      assert yyss[..1] == [0];
      while true
        invariant Running(yyss, yyvs, yyssp, yystate, yychar, goal)
        invariant Environment() == old(Environment())
        decreases |input| + (if yychar > 0 then 1 else 0), Rank(yystate)
      {
        hide Expect;
        if YYINITDEPTH - 1 <= yyssp {
          ShallowStack(yystate);
          assert false;
        }
        if yystate == YYFINAL {
          AtFinal(Environment(), yyvs[..yyssp + 1], Lexemes(Pending(yychar)), tmpEntry, entry);
          return 0;
        }
        var action;
        yychar, action := Decide(yystate, yychar);
        match action {
          case Shift(to) =>
            Shift(yyss, yyvs, yyssp, yystate, yychar, to, goal);
            EndRank();
            yyssp, yystate, yychar := yyssp + 1, to, YYEMPTY;
          case Reduce(rule) =>
            yyssp, yystate := ReduceBy(yyss, yyvs, yyssp, yystate, yychar, rule, goal);
          case Fail =>
            FailureIsExpected(Environment(), yystate, yyvs[..yyssp + 1], Lexemes(Pending(yychar)), tmpEntry, entry);
            Abort(yyss, yyssp, yystate);
            return 1;
        }
      }
    }

    /** vmi_parse_config, and the entry vmi_get_config then returns. */
    method VmiParseConfig(td: string) returns (ret: int)
      modifies this
      ensures var env := Env(td, strtol, strtoull);
              var file := Lexemes(old(input));
              && Outcome(ret, tmpEntry, entry) == Domains(env, file, ZERO, ZERO)
              && (ret == 0 <==> SpellsBlocks(file))
    {
      hide Domains, Lexemes, SpellsBlocks, Canonical;
      AcceptedLanguage(Env(td, strtol, strtoull), Lexemes(input), ZERO);
      targetDomain := td;
      entry, tmpEntry := ZERO, ZERO;
      ret := YyParse();
    }
  }
}
