/** The automaton that the five LALR(1) tables of config/grammar.c encode. */
module GrammarAutomaton {
  import opened GrammarTables

  // ----- the automaton of the tables ----------------------------------------------------

  datatype Action = Shift(state: int) | Reduce(rule: int) | Fail

  /** States that act without a lookahead token. */
  predicate DefaultOnly(state: int)
    requires 0 <= state < YYNSTATES
  {
    Pact(state) == YYPACT_NINF
  }

  function Default(state: int): Action
    requires 0 <= state < YYNSTATES
  {
    if Defact(state) == 0 then Fail else Reduce(Defact(state))
  }

  /** The decision yybackup takes in a state that needs the lookahead symbol. */
  function NextAction(state: int, sym: int): Action
    requires 0 <= state < YYNSTATES && 0 <= sym < YYNTOKENS
  {
    var n := Pact(state) + sym;
    if n < 0 || YYLAST < n || Check(n) != sym then Default(state)
    else if Table(n) <= 0 then Reduce(-Table(n))
    else Shift(Table(n))
  }

  /** The number of symbols a reduction by a rule pops. */
  function RuleLength(rule: int): int
    requires 0 <= rule <= YYNRULES
  {
    YYR2[rule]
  }

  /** The state pushed after reducing by a rule on top of a state. */
  function Goto(state: int, rule: int): int
    requires 2 <= rule <= YYNRULES
  {
    RuleSymbols(rule);
    var n := YYR1[rule] - YYNTOKENS;
    var i := YYPGOTO[n] + state;
    if 0 <= i <= YYLAST && Check(i) == state then Table(i) else YYDEFGOTO[n]
  }

  // ----- the tables in closed form ------------------------------------------------------

  function CheckAt(i: int): int {
    if i < 18 then i + 4 else if i == 18 then 0 else if i == 19 then 25
    else if i == 22 then 26 else if i == 24 then 3 else if i <= 39 then 28
    else if i == 40 then 22 else if i == 41 then 27 else if i <= 56 then 3
    else if i <= 58 then 24 else if i == 59 then 23 else if i == 60 then 22 else if i == 61 then 24
    else if i <= 77 then -1 else 24
  }

  function TableAt(i: int): int {
    if i < 18 then i + 7 else if i == 18 then 2 else if i == 19 then 5
    else if i <= 21 then i + 25 else if i == 22 then 25 else if i == 23 then 47 else if i == 24 then 64
    else if i <= 39 then i + 23 else if i == 40 then 3 else if i == 41 then 63
    else if i <= 61 then i + 23 else if i <= 77 then 0 else 85
  }

  function PactAt(s: int): int {
    if s == 1 then 18 else if s == 3 then -6 else if s == 6 then -4 else if s == 7 then -8 else if s == 8 then -7
    else if s == 9 then -5 else if 10 <= s <= 24 then s - 13 else if s == 26 then 14
    else if s == 45 then 21 else if 46 <= s <= 60 then s - 7 else if s == 61 then 33 else if s == 62 then 34
    else if s == 80 then 36 else if s == 81 then 38 else if s == 82 then 37 else if s == 83 then 54
    else -9
  }

  function DefactAt(s: int): int {
    if s == 0 then 2 else if s == 2 then 1 else if s == 4 then 3 else if s == 5 then 5 else if s == 6 then 7
    else if s == 25 then 4 else if 27 <= s <= 42 then s - 17 else if s == 43 then 8 else if s == 44 then 9
    else if s == 63 then 6 else if 64 <= s <= 79 then s - 38 else if s >= 84 then s - 42
    else 0
  }

  lemma RuleSymbols(rule: int)
    requires 2 <= rule <= YYNRULES
    ensures YYNTOKENS < YYR1[rule] < YYNTOKENS + |YYPGOTO|
    ensures YYR1[rule] == if rule <= 3 then 30 else if rule == 4 then 31 else if rule <= 6 then 32
                          else if rule <= 25 then 33 else rule + 8
  {
  }

  lemma CheckIs(i: int)
    requires 0 <= i <= YYLAST
    ensures Check(i) == CheckAt(i)
  {
    hide Check, CheckAt;
    if i < 40 {
      CheckLow(i);
    } else {
      CheckHigh(i);
    }
  }

  lemma CheckLow(i: int)
    requires 0 <= i < 40
    ensures Check(i) == CheckAt(i)
  {
  }

  lemma CheckHigh(i: int)
    requires 40 <= i <= YYLAST
    ensures Check(i) == CheckAt(i)
  {
  }

  lemma TableIs(i: int)
    requires 0 <= i <= YYLAST
    ensures Table(i) == TableAt(i)
  {
    hide Table, TableAt;
    if i < 40 {
      TableLow(i);
    } else {
      TableHigh(i);
    }
  }

  lemma TableLow(i: int)
    requires 0 <= i < 40
    ensures Table(i) == TableAt(i)
  {
  }

  lemma TableHigh(i: int)
    requires 40 <= i <= YYLAST
    ensures Table(i) == TableAt(i)
  {
  }

  lemma PactIs(s: int)
    requires 0 <= s < YYNSTATES
    ensures Pact(s) == PactAt(s)
  {
    hide Pact, PactAt;
    if s < 40 {
      PactLow(s);
    } else {
      PactHigh(s);
    }
  }

  lemma PactLow(s: int)
    requires 0 <= s < 40
    ensures Pact(s) == PactAt(s)
  {
  }

  lemma PactHigh(s: int)
    requires 40 <= s < YYNSTATES
    ensures Pact(s) == PactAt(s)
  {
  }

  lemma DefactIs(s: int)
    requires 0 <= s < YYNSTATES
    ensures Defact(s) == DefactAt(s)
  {
    hide Defact, DefactAt;
    if s < 40 {
      DefactLow(s);
    } else {
      DefactHigh(s);
    }
  }

  lemma DefactLow(s: int)
    requires 0 <= s < 40
    ensures Defact(s) == DefactAt(s)
  {
  }

  lemma DefactHigh(s: int)
    requires 40 <= s < YYNSTATES
    ensures Defact(s) == DefactAt(s)
  {
  }

  lemma LengthIs(rule: int)
    requires 2 <= rule <= YYNRULES
    ensures RuleLength(rule) == Length(rule)
  {
  }

  function Length(rule: int): int {
    if rule == 3 then 2 else if rule == 4 then 4 else if rule == 6 then 3
    else if rule == 2 || rule == 5 || rule == 7 then 0
    else if rule <= 25 then 1 else if rule <= 41 then 3 else 5
  }

  lemma DefGotoIs(n: int)
    requires 1 <= n < |YYDEFGOTO|
    ensures YYDEFGOTO[n] == if n == 1 then 1 else if n == 2 then 4 else if n == 3 then 6 else n + 22
    ensures YYPGOTO[n] == -9
  {
  }

  /** The automaton the five tables encode: what each state does on each symbol. */
  function Automaton(s: int, sym: int): Action {
    if s == 0 then Reduce(2)
    else if s == 1 then if sym == 0 then Shift(2) else if sym == 22 then Shift(3) else Fail
    else if s == 2 then Reduce(1)
    else if s == 3 then if sym == 25 then Shift(5) else Fail
    else if s == 4 then Reduce(3)
    else if s == 5 then Reduce(5)
    else if s == 6 then if 4 <= sym <= 21 then Shift(sym + 3) else if sym == 26 then Shift(25) else Reduce(7)
    else if s <= 24 then if sym == 28 then Shift(s + 38) else Fail
    else if s == 25 then Reduce(4)
    else if s == 26 then if sym == 27 then Shift(63) else Fail
    else if s <= 42 then Reduce(s - 17)
    else if s <= 44 then Reduce(s - 35)
    else if s <= 60 then if sym == 3 then Shift(s + 19) else Fail
    else if s <= 62 then if sym == 24 then Shift(s + 19) else Fail
    else if s == 63 then Reduce(6)
    else if s <= 79 then Reduce(s - 38)
    else if s == 80 then if sym == 23 then Shift(82) else Fail
    else if s == 81 then if sym == 22 then Shift(83) else Fail
    else if s <= 83 then if sym == 24 then Shift(s + 2) else Fail
    else Reduce(s - 42)
  }

  function GotoState(rule: int): int {
    if rule <= 3 then 1 else if rule == 4 then 4 else if rule <= 6 then 6
    else if rule <= 25 then 26 else rule + 1
  }

  lemma TablesAreAutomaton(state: int, sym: int)
    requires 0 <= state < YYNSTATES && 0 <= sym < YYNTOKENS
    ensures DefaultOnly(state) ==> Default(state) == Automaton(state, sym)
    ensures !DefaultOnly(state) ==> NextAction(state, sym) == Automaton(state, sym)
  {
    hide Pact, Defact, Table, Check;
    PactIs(state);
    DefactIs(state);
    var n := PactAt(state) + sym;
    if 0 <= n <= YYLAST {
      CheckIs(n);
      TableIs(n);
    }
  }

  lemma GotoIs(state: int, rule: int)
    requires 0 <= state < YYNSTATES && 2 <= rule <= YYNRULES
    ensures Goto(state, rule) == GotoState(rule)
  {
    hide Table, Check;
    RuleSymbols(rule);
    DefGotoIs(YYR1[rule] - YYNTOKENS);
    var i := state - 9;
    if 0 <= i <= YYLAST {
      CheckIs(i);
    }
  }
}
