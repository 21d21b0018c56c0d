/** The LALR(1) tables Bison generated for the configuration grammar (config/grammar.c). */
module GrammarTables {

  /** Symbol each rule derives. */
  const YYR1: seq<int> :=
    [0, 29, 30, 30, 31, 32, 32, 33, 33, 33] +
    [33, 33, 33, 33, 33, 33, 33, 33, 33, 33] +
    [33, 33, 33, 33, 33, 33, 34, 35, 36, 37] +
    [38, 39, 40, 41, 42, 43, 44, 45, 46, 47] +
    [48, 49, 50, 51]

  /** Number of symbols on each rule's right-hand side. */
  const YYR2: seq<int> :=
    [0, 2, 0, 2, 4, 0, 3, 0, 1, 1] +
    [1, 1, 1, 1, 1, 1, 1, 1, 1, 1] +
    [1, 1, 1, 1, 1, 1, 3, 3, 3, 3] +
    [3, 3, 3, 3, 3, 3, 3, 3, 3, 3] +
    [3, 3, 5, 5]

  /** Default reduction of each state; 0 means error. */
  const YYDEFACT: seq<int> :=
    ([2, 0, 1, 0, 3, 5, 7, 0, 0, 0] +
     [0, 0, 0, 0, 0, 0, 0, 0, 0, 0] +
     [0, 0, 0, 0, 0, 4, 0, 10, 11, 12] +
     [13, 14, 15, 16, 17, 18, 19, 20, 21, 22]) +
    ([23, 24, 25, 8, 9, 0, 0, 0, 0, 0] +
     [0, 0, 0, 0, 0, 0, 0, 0, 0, 0] +
     [0, 0, 0, 6, 26, 27, 28, 29, 30, 31] +
     [32, 33, 34, 35, 36, 37, 38, 39, 40, 41] +
     [0, 0, 0, 0, 42, 43])

  /** Default goto of each nonterminal. */
  const YYDEFGOTO: seq<int> :=
    [-1, 1, 4, 6, 26, 27, 28, 29, 30, 31] +
    [32, 33, 34, 35, 36, 37, 38, 39, 40, 41] +
    [42, 43, 44]

  /** Row of each state in YYTABLE; -9 means: take the default reduction without looking ahead. */
  const YYPACT: seq<int> :=
    ([-9, 18, -9, -6, -9, -9, -4, -8, -7, -5] +
     [-3, -2, -1, 0, 1, 2, 3, 4, 5, 6] +
     [7, 8, 9, 10, 11, -9, 14, -9, -9, -9] +
     [-9, -9, -9, -9, -9, -9, -9, -9, -9, -9]) +
    ([-9, -9, -9, -9, -9, 21, 39, 40, 41, 42] +
     [43, 44, 45, 46, 47, 48, 49, 50, 51, 52] +
     [53, 33, 34, -9, -9, -9, -9, -9, -9, -9] +
     [-9, -9, -9, -9, -9, -9, -9, -9, -9, -9] +
     [36, 38, 37, 54, -9, -9])

  /** Row of each nonterminal in YYTABLE. */
  const YYPGOTO: seq<int> :=
    [-9, -9, -9, -9, -9, -9, -9, -9, -9, -9] +
    [-9, -9, -9, -9, -9, -9, -9, -9, -9, -9] +
    [-9, -9, -9]

  /** What to do: shift to the state given. */
  const YYTABLE: seq<int> :=
    ([7, 8, 9, 10, 11, 12, 13, 14, 15, 16] +
     [17, 18, 19, 20, 21, 22, 23, 24, 2, 5] +
     [45, 46, 25, 47, 64, 48, 49, 50, 51, 52] +
     [53, 54, 55, 56, 57, 58, 59, 60, 61, 62]) +
    ([3, 63, 65, 66, 67, 68, 69, 70, 71, 72] +
     [73, 74, 75, 76, 77, 78, 79, 80, 81, 82] +
     [83, 84, 0, 0, 0, 0, 0, 0, 0, 0] +
     [0, 0, 0, 0, 0, 0, 0, 0, 85])

  /** Which symbol or state an entry of YYTABLE is for. */
  const YYCHECK: seq<int> :=
    ([4, 5, 6, 7, 8, 9, 10, 11, 12, 13] +
     [14, 15, 16, 17, 18, 19, 20, 21, 0, 25] +
     [28, 28, 26, 28, 3, 28, 28, 28, 28, 28] +
     [28, 28, 28, 28, 28, 28, 28, 28, 28, 28]) +
    ([22, 27, 3, 3, 3, 3, 3, 3, 3, 3] +
     [3, 3, 3, 3, 3, 3, 3, 24, 24, 23] +
     [22, 24, -1, -1, -1, -1, -1, -1, -1, -1] +
     [-1, -1, -1, -1, -1, -1, -1, -1, 24])

  const YYFINAL := 2
  const YYLAST := 78
  const YYNTOKENS := 29
  const YYNSTATES := 86
  const YYNRULES := 43
  const YYPACT_NINF := -9
  const YYINITDEPTH := 200

  // Bounded access, so that a proof can hide the table behind an entry.

  function Pact(state: int): int
    requires 0 <= state < YYNSTATES
  {
    YYPACT[state]
  }

  function Defact(state: int): int
    requires 0 <= state < YYNSTATES
  {
    YYDEFACT[state]
  }

  function Table(i: int): int
    requires 0 <= i <= YYLAST
  {
    YYTABLE[i]
  }

  function Check(i: int): int
    requires 0 <= i <= YYLAST
  {
    YYCHECK[i]
  }

  /** YYTRANSLATE: lexer token codes to grammar symbols; symbol 2 is "undefined", 1 is "error". */
  function YYTRANSLATE(kind: int): (sym: int)
    ensures 0 <= sym < YYNTOKENS
  {
    if kind == 0 then 0
    else if kind == 256 then 1
    else if 258 <= kind <= 283 then kind - 255
    else 2
  }
}
