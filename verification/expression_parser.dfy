/**
 * The precedence-climbing expression parser of the FloydSpeak prototype.
 * Each step takes the remaining text and returns the expression it built
 * together with the text left over; exceptions become `Failure`.
 *
 * The parser is generic over a `maker` that builds expressions; here the
 * maker is the datatype `Expr`, one constructor per maker call.
 */
module ExpressionParser {
  import opened Wrappers
  import Syntax = FloydSyntax

  //////////////////////////////////////////////////  Expressions

  /** `eoperation`. */
  datatype Operation =
    | NumberConstant | Identifier | StringLiteral
    | MemberAccess
    | Add | Subtract | Multiply | Divide | Remainder
    | SmallerOrEqual | Smaller | LargerOrEqual | Larger
    | LogicalEqual | LogicalNonequal | LogicalAnd | LogicalOr
    | ConditionalOperator
    | CallOperation
    | LogicalNot

  /** What the maker is asked to build: one constructor per `maker__*` member. */
  datatype Expr =
    | OnString(op: Operation, text: string)
    | Make1(op: Operation, operand: Expr)
    | Make2(op: Operation, lhs: Expr, rhs: Expr)
    | Make3(op: Operation, e1: Expr, e2: Expr, e3: Expr)
    | Call(callee: string, args: seq<Expr>)

  /**
   * The parser as written, or corrected in two places: as written, `<` and
   * `>` skip two characters, and the operators that end a level
   * (comparisons, equality, `?:`) skip one more character after their last
   * operand; corrected, `<` and `>` skip themselves only and nothing after
   * the operand is skipped.
   */
  datatype Dialect = AsWritten | Corrected

  /** How many characters `<` and `>` skip. */
  function SingleComparisonWidth(d: Dialect): (r: nat)
    ensures r == 1 <==> d.Corrected?
  {
    if d.AsWritten? then 2 else 1
  }

  /** How many characters are skipped after the last operand of an operator that ends a level. */
  function EndOfLevelSkip(d: Dialect): (r: nat)
    ensures r == 0 <==> d.Corrected?
  {
    if d.AsWritten? then 1 else 0
  }

  //////////////////////////////////////////////////  The text position

  /** `p.rest(n)`: the text after `n` characters, empty when fewer remain. */
  function Rest(p: string, n: nat): (r: string)
    ensures |r| == if |p| < n then 0 else |p| - n
    ensures r == p[|p| - |r|..]
  {
    if |p| < n then [] else p[n..]
  }

  /** `p.first(1) == [c]`. */
  predicate StartsWith(p: string, c: char) {
    p != [] && p[0] == c
  }

  /** `p.first(2) == [c1, c2]`. */
  predicate StartsWith2(p: string, c1: char, c2: char) {
    |p| >= 2 && p[0] == c1 && p[1] == c2
  }

  /**
   * `read_while(p, chars)` when `inSet`, `read_while_not(p, chars)`
   * otherwise: the longest run of leading characters whose membership in
   * `chars` is `inSet`, and the text after it.
   */
  function ReadRun(p: string, chars: set<char>, inSet: bool): (r: (string, string))
    ensures r.0 + r.1 == p
    ensures forall i :: 0 <= i < |r.0| ==> (r.0[i] in chars) == inSet
    ensures r.1 == [] || (r.1[0] in chars) != inSet
  {
    if p == [] || (p[0] in chars) != inSet then ([], p)
    else
      var (run, rest) := ReadRun(p[1..], chars, inSet);
      assert p == [p[0]] + p[1..];
      ([p[0]] + run, rest)
  }

  /** A run followed by a character outside it is read as exactly that run. */
  lemma {:induction false} ReadRunOf(run: string, t: string, chars: set<char>, inSet: bool)
    requires forall i :: 0 <= i < |run| ==> (run[i] in chars) == inSet
    requires t == [] || (t[0] in chars) != inSet
    ensures ReadRun(run + t, chars, inSet) == (run, t)
  {
    if run != [] {
      assert (run + t)[0] == run[0];
      assert (run + t)[1..] == run[1..] + t;
      ReadRunOf(run[1..], t, chars, inSet);
      assert [run[0]] + run[1..] == run;
    } else {
      assert run + t == t;
    }
  }

  /** `skip_whitespace`. */
  function SkipWhitespace(p: string): (r: string)
    ensures |r| <= |p| && (r == [] || r[0] !in Syntax.C99WhitespaceChars)
  {
    ReadRun(p, Syntax.C99WhitespaceChars, true).1
  }

  /** Text that starts with a non-whitespace character is left as it is by `skip_whitespace`. */
  lemma SkipNothing(p: string)
    requires p == [] || p[0] !in Syntax.C99WhitespaceChars
    ensures SkipWhitespace(p) == p
  {
    ReadRunOf([], p, Syntax.C99WhitespaceChars, true);
    assert [] + p == p;
  }

  //////////////////////////////////////////////////  Operators

  /** The current level is weaker than `level`, so an operator of `level` may be consumed. */
  predicate Looser(prec: Syntax.Precedence, level: Syntax.Precedence) {
    Syntax.PrecedenceValue(prec) > Syntax.PrecedenceValue(level)
  }

  /** The levels whose operators group to the left and keep going at the caller's level. */
  predicate Chaining(level: Syntax.Precedence) {
    level in {Syntax.MemberAccess, Syntax.MultiplyDividerRemainder, Syntax.AddSub, Syntax.LogicalAnd, Syntax.LogicalOr}
  }

  /**
   * A binary operator: what it builds, its level, how many characters the
   * parser skips for it, and whether the parser goes on combining at the
   * caller's level afterwards (left associativity) or ends the level.
   */
  datatype Rule = Rule(op: Operation, level: Syntax.Precedence, width: nat, chains: bool)

  /**
   * The binary-operator branches of `evaluate_operation`, in the order they
   * are tried: the first operator spelled at the front of `p` whose level
   * binds more strongly than `prec`.
   */
  function OperatorRule(d: Dialect, p: string, prec: Syntax.Precedence): (r: Option<Rule>)
    requires p != []
    ensures r.Some? ==> Looser(prec, r.value.level) && 1 <= r.value.width <= 2
    ensures r.Some? ==> (r.value.chains <==> Chaining(r.value.level))
    ensures r.Some? ==> Token(r.value.op) <= p && (r.value.width == |Token(r.value.op)| || r.value.op in {Smaller, Larger})
  {
    var op1 := p[0];
    if op1 == '.' && Looser(prec, Syntax.MemberAccess) then Some(Rule(MemberAccess, Syntax.MemberAccess, 1, true))
    else if op1 == '+' && Looser(prec, Syntax.AddSub) then Some(Rule(Add, Syntax.AddSub, 1, true))
    else if op1 == '-' && Looser(prec, Syntax.AddSub) then Some(Rule(Subtract, Syntax.AddSub, 1, true))
    else if op1 == '*' && Looser(prec, Syntax.MultiplyDividerRemainder) then
      Some(Rule(Multiply, Syntax.MultiplyDividerRemainder, 1, true))
    else if op1 == '/' && Looser(prec, Syntax.MultiplyDividerRemainder) then
      Some(Rule(Divide, Syntax.MultiplyDividerRemainder, 1, true))
    else if op1 == '%' && Looser(prec, Syntax.MultiplyDividerRemainder) then
      Some(Rule(Remainder, Syntax.MultiplyDividerRemainder, 1, true))
    else if StartsWith2(p, '=', '=') && Looser(prec, Syntax.EqualNotEqual) then
      Some(Rule(LogicalEqual, Syntax.EqualNotEqual, 2, false))
    else if StartsWith2(p, '!', '=') && Looser(prec, Syntax.EqualNotEqual) then
      Some(Rule(LogicalNonequal, Syntax.EqualNotEqual, 2, false))
    else if StartsWith2(p, '<', '=') && Looser(prec, Syntax.LargerSmaller) then
      Some(Rule(SmallerOrEqual, Syntax.LargerSmaller, 2, false))
    else if op1 == '<' && Looser(prec, Syntax.LargerSmaller) then
      Some(Rule(Smaller, Syntax.LargerSmaller, SingleComparisonWidth(d), false))
    else if StartsWith2(p, '>', '=') && Looser(prec, Syntax.LargerSmaller) then
      Some(Rule(LargerOrEqual, Syntax.LargerSmaller, 2, false))
    else if op1 == '>' && Looser(prec, Syntax.LargerSmaller) then
      Some(Rule(Larger, Syntax.LargerSmaller, SingleComparisonWidth(d), false))
    else if StartsWith2(p, '&', '&') && Looser(prec, Syntax.LogicalAnd) then
      Some(Rule(LogicalAnd, Syntax.LogicalAnd, 2, true))
    else if StartsWith2(p, '|', '|') && Looser(prec, Syntax.LogicalOr) then
      Some(Rule(LogicalOr, Syntax.LogicalOr, 2, true))
    else None
  }

  /** The spelling of each binary operator. */
  function Token(op: Operation): string {
    match op
    case MemberAccess => "."
    case Add => "+"
    case Subtract => "-"
    case Multiply => "*"
    case Divide => "/"
    case Remainder => "%"
    case SmallerOrEqual => "<="
    case Smaller => "<"
    case LargerOrEqual => ">="
    case Larger => ">"
    case LogicalEqual => "=="
    case LogicalNonequal => "!="
    case LogicalAnd => "&&"
    case LogicalOr => "||"
    case _ => ""
  }

  //////////////////////////////////////////////////  The parser

  /**
   * `evaluate_single`: a string literal, a number, or what follows an
   * identifier. Text that starts none of these ends in an assertion in the
   * source and fails here.
   */
  function EvaluateSingle(d: Dialect, p: string): (r: Result<(Expr, string)>)
    ensures r.Success? ==> |r.value.1| < |p|
    decreases |p|, 3
  {
    if StartsWith(p, '"') then
      var s := ReadRun(p[1..], {'"'}, false);
      Success((OnString(StringLiteral, s.0), Rest(s.1, 1)))
    else
      var number := ReadRun(p, Syntax.NumberChars, true);
      if number.0 != [] then Success((OnString(NumberConstant, number.0), number.1))
      else
        var identifier := ReadRun(p, Syntax.IdentifierChars, true);
        if identifier.0 == [] then Failure("unrecognised expression")
        else EvaluateAfterIdentifier(d, identifier.0, identifier.1)
  }

  /**
   * The identifier branch of `evaluate_single`: a member-access chain after
   * `.`, a call after `(`, or the plain identifier. A `[` ends in an
   * assertion in the source and fails here.
   */
  function EvaluateAfterIdentifier(d: Dialect, name: string, rest: string): (r: Result<(Expr, string)>)
    ensures r.Success? ==> |r.value.1| <= |rest|
    decreases |rest|, 2
  {
    var pos2 := SkipWhitespace(rest);
    if StartsWith(pos2, '[') then Failure("lookup is not supported")
    else if StartsWith(pos2, '.') then EvaluateOperation(d, pos2, OnString(Identifier, name), Syntax.SuperWeak)
    else if StartsWith(pos2, '(') then
      var pos3 := SkipWhitespace(pos2[1..]);
      if StartsWith(pos3, ')') then Success((Call(name, []), pos3[1..]))
      else
        var args :- ParseArguments(d, pos3);
        Success((Call(name, args.0), args.1))
    else Success((OnString(Identifier, name), rest))
  }

  /**
   * The argument loop of `evaluate_single`: expressions separated by `,`
   * and closed by `)`; any other separator throws "Unexpected char".
   */
  function ParseArguments(d: Dialect, p: string): (r: Result<(seq<Expr>, string)>)
    ensures r.Success? ==> |r.value.1| < |p| && |r.value.0| >= 1
    decreases |p|, 6
  {
    var a :- EvaluateExpression(d, p, Syntax.SuperWeak);
    if StartsWith(a.1, ',') then
      var more :- ParseArguments(d, a.1[1..]);
      Success(([a.0] + more.0, more.1))
    else if StartsWith(a.1, ')') then Success(([a.0], a.1[1..]))
    else Failure("Unexpected char")
  }

  /** `evaluate_atom`: a negation, a parenthesised expression, the `:` of a conditional, or a single. */
  function EvaluateAtom(d: Dialect, p: string): (r: Result<(Expr, string)>)
    ensures SkipWhitespace(p) == [] ==> r == Failure("Unexpected end of string")
    ensures r.Success? ==> |r.value.1| < |p| && (r.value.1 == [] || r.value.1[0] !in Syntax.C99WhitespaceChars)
    decreases |p|, 4
  {
    var p2 := SkipWhitespace(p);
    if p2 == [] then Failure("Unexpected end of string")
    else if p2[0] == '-' then
      var a :- EvaluateExpression(d, p2[1..], Syntax.SuperStrong);
      Success((Make1(LogicalNot, a.0), SkipWhitespace(a.1)))
    else if p2[0] == '(' then
      var a :- EvaluateExpression(d, p2[1..], Syntax.SuperWeak);
      if !StartsWith(a.1, ')') then Failure("Expected ')'")
      else Success((a.0, SkipWhitespace(a.1[1..])))
    else if p2[0] == ':' then
      var a :- EvaluateExpression(d, p2[1..], Syntax.SuperWeak);
      Success((a.0, SkipWhitespace(Rest(a.1, 1))))
    else
      var a :- EvaluateSingle(d, p2);
      Success((a.0, SkipWhitespace(a.1)))
  }

  /**
   * `evaluate_operation`: with `lhs` already parsed, consume the operators
   * that bind more strongly than `prec`. A `)` or an operator that binds no
   * more strongly leaves `lhs` and the text as they are.
   */
  function EvaluateOperation(d: Dialect, p: string, lhs: Expr, prec: Syntax.Precedence): (r: Result<(Expr, string)>)
    ensures r.Success? ==> |r.value.1| <= |p|
    ensures r.Success? && |r.value.1| == |p| ==> r.value.0 == lhs
    decreases |p|, 1
  {
    if p == [] then Success((lhs, p))
    else if p[0] == ')' && Looser(prec, Syntax.Parenthesis) then Success((lhs, p))
    else if p[0] == '?' && Looser(prec, Syntax.ComparisonOperator) then EvaluateConditional(d, p[1..], lhs, prec)
    else match OperatorRule(d, p, prec)
      case None => Success((lhs, p))
      case Some(rule) => ApplyRule(d, Rest(p, rule.width), lhs, rule, prec)
  }

  /**
   * A binary operator of `evaluate_operation` after its spelling: the right
   * operand is parsed at the operator's own level. Chaining operators then
   * continue at the caller's level (left associativity); comparisons and
   * equality end the level.
   */
  function ApplyRule(d: Dialect, q: string, lhs: Expr, rule: Rule, prec: Syntax.Precedence): (r: Result<(Expr, string)>)
    ensures r.Success? ==> |r.value.1| < |q|
    decreases |q|, 6
  {
    var rhs :- EvaluateExpression(d, q, rule.level);
    var value := Make2(rule.op, lhs, rhs.0);
    if rule.chains then EvaluateOperation(d, rhs.1, value, prec)
    else Success((value, Rest(rhs.1, EndOfLevelSkip(d))))
  }

  /**
   * The `?` branch of `evaluate_operation`: the true branch at
   * `k_comparison_operator`, a required `:`, then the false branch at the
   * caller's level, which ends the level.
   */
  function EvaluateConditional(d: Dialect, q: string, condition: Expr, prec: Syntax.Precedence): (r: Result<(Expr, string)>)
    ensures r.Success? ==> |r.value.1| < |q|
    decreases |q|, 6
  {
    var t :- EvaluateExpression(d, q, Syntax.ComparisonOperator);
    if !StartsWith(t.1, ':') then Failure("Expected ':'")
    else
      var f :- EvaluateExpression(d, t.1[1..], prec);
      Success((Make3(ConditionalOperator, condition, t.0, f.0), Rest(f.1, EndOfLevelSkip(d))))
  }

  /** `evaluate_expression`: an atom followed by the operators `prec` admits. */
  function EvaluateExpression(d: Dialect, p: string, prec: Syntax.Precedence): (r: Result<(Expr, string)>)
    ensures SkipWhitespace(p) == [] ==> r == Failure("Unexpected end of string")
    ensures r.Success? ==> |r.value.1| < |p|
    decreases |p|, 5
  {
    var a :- EvaluateAtom(d, p);
    EvaluateOperation(d, a.1, a.0, prec)
  }

  /**
   * The argument loop of `evaluate_single` as it runs: parse an argument,
   * then go on after `,`, stop after `)`, or throw.
   */
  method EvaluateCallArguments(d: Dialect, p: string) returns (r: Result<(seq<Expr>, string)>)
    ensures r == ParseArguments(d, p)
  {
    var pos := p;
    var args: seq<Expr> := [];
    var more := true;
    assert Prepend([], ParseArguments(d, p)) == ParseArguments(d, p) by {
      var r := ParseArguments(d, p);
      if r.Success? {
        assert [] + r.value.0 == r.value.0;
      }
    }
    while more
      invariant more ==> Prepend(args, ParseArguments(d, pos)) == ParseArguments(d, p)
      invariant !more ==> ParseArguments(d, p) == Success((args, pos))
      decreases |pos|, more
    {
      var a := EvaluateExpression(d, pos, Syntax.SuperWeak);
      if a.Failure? {
        return Failure(a.error);
      }
      if StartsWith(a.value.1, ',') {
        more := true;
        PrependTwice(args, a.value.0, ParseArguments(d, a.value.1[1..]));
      } else if StartsWith(a.value.1, ')') {
        more := false;
      } else {
        return Failure("Unexpected char");
      }
      args := args + [a.value.0];
      pos := a.value.1[1..];
    }
    return Success((args, pos));
  }

  /** Placing arguments in front in two steps is placing them all at once. */
  lemma PrependTwice(done: seq<Expr>, e: Expr, later: Result<(seq<Expr>, string)>)
    ensures Prepend(done, Prepend([e], later)) == Prepend(done + [e], later)
  {
    if later.Success? {
      assert done + ([e] + later.value.0) == done + [e] + later.value.0;
    }
  }

  /** The arguments `done` placed in front of a later parse of the rest. */
  function Prepend(done: seq<Expr>, later: Result<(seq<Expr>, string)>): Result<(seq<Expr>, string)> {
    if later.Failure? then later else Success((done + later.value.0, later.value.1))
  }

  //////////////////////////////////////////////////  Properties

  /** A non-empty run of number characters. */
  predicate IsNumberWord(x: string) {
    x != [] && forall i :: 0 <= i < |x| ==> x[i] in Syntax.NumberChars
  }

  /** A character that ends a number and is not whitespace. */
  predicate EndsNumber(t: string) {
    t == [] || (t[0] !in Syntax.NumberChars && t[0] !in Syntax.C99WhitespaceChars)
  }

  /** `evaluate_single` reads a number as the maximal run of number characters. */
  lemma NumberSingle(d: Dialect, x: string, t: string)
    requires IsNumberWord(x) && (t == [] || t[0] !in Syntax.NumberChars)
    ensures EvaluateSingle(d, x + t) == Success((OnString(NumberConstant, x), t))
  {
    assert (x + t)[0] == x[0];
    ReadRunOf(x, t, Syntax.NumberChars, true);
  }

  /** A number word is an atom of its own; the text after it is left. */
  lemma NumberAtom(d: Dialect, x: string, t: string)
    requires IsNumberWord(x) && EndsNumber(t)
    ensures EvaluateAtom(d, x + t) == Success((OnString(NumberConstant, x), t))
  {
    var p := x + t;
    assert p[0] == x[0];
    assert p[0] != '-' && p[0] != '(' && p[0] != ':';
    SkipNothing(p);
    SkipNothing(t);
    NumberSingle(d, x, t);
  }

  /** A number word parses to a number constant, and what follows it is handed to the operator loop. */
  lemma NumberThenOperation(d: Dialect, x: string, t: string, prec: Syntax.Precedence)
    requires IsNumberWord(x) && EndsNumber(t)
    ensures EvaluateExpression(d, x + t, prec) == EvaluateOperation(d, t, OnString(NumberConstant, x), prec)
  {
    NumberAtom(d, x, t);
  }

  /** An input that is empty after whitespace throws "Unexpected end of string". */
  lemma EmptyInput(d: Dialect, p: string, prec: Syntax.Precedence)
    requires forall i :: 0 <= i < |p| ==> p[i] in Syntax.C99WhitespaceChars
    ensures EvaluateExpression(d, p, prec) == Failure("Unexpected end of string")
  {
    ReadRunOf(p, [], Syntax.C99WhitespaceChars, true);
    assert p + [] == p;
  }

  /** The spelling of an arithmetic operator. */
  predicate ArithmeticChar(c: char) {
    c == '+' || c == '-' || c == '*' || c == '/' || c == '%'
  }

  /** An arithmetic operator ends a number and is not whitespace. */
  lemma ArithmeticCharEndsNumber(c: char, rest: string)
    requires ArithmeticChar(c)
    ensures EndsNumber([c] + rest)
  {
  }

  /** The weakest level admits every arithmetic operator. */
  lemma WeakestAdmitsArithmetic(o: char)
    requires ArithmeticChar(o)
    ensures Looser(Syntax.SuperWeak, ArithmeticLevel(o))
  {
  }

  /** The two-level arithmetic operators: `+` and `-` at `k_add_sub`, `*`, `/` and `%` at the stronger level. */
  function ArithmeticOperation(o: char): (r: Operation)
    requires ArithmeticChar(o)
    ensures Token(r) == [o]
  {
    match o
    case '+' => Add
    case '-' => Subtract
    case '*' => Multiply
    case '/' => Divide
    case '%' => Remainder
  }

  function ArithmeticLevel(o: char): Syntax.Precedence
    requires ArithmeticChar(o)
  {
    if o == '+' || o == '-' then Syntax.AddSub else Syntax.MultiplyDividerRemainder
  }

  /** An arithmetic operator is consumed exactly when the current level is weaker than its own. */
  lemma ArithmeticRule(d: Dialect, p: string, prec: Syntax.Precedence)
    requires p != [] && ArithmeticChar(p[0])
    ensures OperatorRule(d, p, prec) ==
      if Looser(prec, ArithmeticLevel(p[0])) then Some(Rule(ArithmeticOperation(p[0]), ArithmeticLevel(p[0]), 1, true))
      else None
  {
    assert !StartsWith2(p, '=', '=') && !StartsWith2(p, '!', '=') && !StartsWith2(p, '<', '=');
    assert !StartsWith2(p, '>', '=') && !StartsWith2(p, '&', '&') && !StartsWith2(p, '|', '|');
  }

  /** An admitted arithmetic operator hands the text after it to the right operand. */
  lemma ArithmeticApplies(d: Dialect, o: char, q: string, lhs: Expr, prec: Syntax.Precedence)
    requires ArithmeticChar(o) && Looser(prec, ArithmeticLevel(o))
    ensures EvaluateOperation(d, [o] + q, lhs, prec) ==
            ApplyRule(d, q, lhs, Rule(ArithmeticOperation(o), ArithmeticLevel(o), 1, true), prec)
  {
    var p := [o] + q;
    assert p[0] == o && p[1..] == q;
    ArithmeticRule(d, p, prec);
  }

  /**
   * One arithmetic operator in front of a number word, at a level that
   * admits it, where the number's own operator loop yields `rhs` and leaves
   * `rest`: the combined expression continues at the caller's level.
   */
  lemma ArithmeticStep(d: Dialect, o: char, y: string, t: string, lhs: Expr, prec: Syntax.Precedence, rhs: Expr, rest: string)
    requires ArithmeticChar(o) && IsNumberWord(y) && EndsNumber(t)
    requires Looser(prec, ArithmeticLevel(o))
    requires EvaluateOperation(d, t, OnString(NumberConstant, y), ArithmeticLevel(o)) == Success((rhs, rest))
    ensures EvaluateOperation(d, [o] + y + t, lhs, prec) ==
            EvaluateOperation(d, rest, Make2(ArithmeticOperation(o), lhs, rhs), prec)
  {
    assert [o] + y + t == [o] + (y + t);
    var rule := Rule(ArithmeticOperation(o), ArithmeticLevel(o), 1, true);
    NumberThenOperation(d, y, t, ArithmeticLevel(o));
    ChainingRule(d, y + t, lhs, rule, prec, rhs, rest);
    ArithmeticApplies(d, o, y + t, lhs, prec);
  }

  /**
   * Precedence and associativity of arithmetic: in `a o1 b o2 c` the
   * second operator groups with `b` only when it binds strictly more
   * strongly than the first; at equal strength the expression groups to
   * the left.
   */
  lemma ArithmeticGrouping(d: Dialect, a: string, o1: char, b: string, o2: char, c: string)
    requires IsNumberWord(a) && IsNumberWord(b) && IsNumberWord(c)
    requires ArithmeticChar(o1) && ArithmeticChar(o2)
    ensures var (A, B, C) := (OnString(NumberConstant, a), OnString(NumberConstant, b), OnString(NumberConstant, c));
            var (op1, op2) := (ArithmeticOperation(o1), ArithmeticOperation(o2));
            EvaluateExpression(d, a + [o1] + b + [o2] + c, Syntax.SuperWeak) ==
              if Looser(ArithmeticLevel(o1), ArithmeticLevel(o2)) then Success((Make2(op1, A, Make2(op2, B, C)), []))
              else Success((Make2(op2, Make2(op1, A, B), C), []))
  {
    var (A, B, C) := (OnString(NumberConstant, a), OnString(NumberConstant, b), OnString(NumberConstant, c));
    var (op1, op2) := (ArithmeticOperation(o1), ArithmeticOperation(o2));
    var level1 := ArithmeticLevel(o1);
    var tail := [o2] + c;
    ArithmeticCharEndsNumber(o1, b + tail);
    ArithmeticCharEndsNumber(o2, c);
    WeakestAdmitsArithmetic(o1);
    WeakestAdmitsArithmetic(o2);
    assert a + [o1] + b + [o2] + c == a + ([o1] + b + tail);
    assert tail == [o2] + c + [];
    NumberThenOperation(d, a, [o1] + b + tail, Syntax.SuperWeak);
    if Looser(level1, ArithmeticLevel(o2)) {
      // `b o2 c` is the right operand of `o1`.
      ArithmeticStep(d, o2, c, [], B, level1, C, []);
      ArithmeticStep(d, o1, b, tail, A, Syntax.SuperWeak, Make2(op2, B, C), []);
    } else {
      // `o2` does not bind more strongly than `o1`: `a o1 b` is finished first.
      ArithmeticRule(d, tail, level1);
      assert EvaluateOperation(d, tail, B, level1) == Success((B, tail));
      ArithmeticStep(d, o1, b, tail, A, Syntax.SuperWeak, B, tail);
      ArithmeticStep(d, o2, c, [], Make2(op1, A, B), Syntax.SuperWeak, C, []);
    }
  }

  //////////////////////////////////////////////////  Single steps of the parser

  /** An operator rule that applies hands the text after its spelling to `ApplyRule`. */
  lemma RuleApplies(d: Dialect, p: string, lhs: Expr, prec: Syntax.Precedence, rule: Rule)
    requires p != [] && p[0] != ')' && p[0] != '?' && OperatorRule(d, p, prec) == Some(rule)
    ensures EvaluateOperation(d, p, lhs, prec) == ApplyRule(d, Rest(p, rule.width), lhs, rule, prec)
  {
  }

  /** A chaining operator builds its node from the right operand and goes on at the caller's level. */
  lemma ChainingRule(d: Dialect, q: string, lhs: Expr, rule: Rule, prec: Syntax.Precedence, rhs: Expr, rest: string)
    requires rule.chains && EvaluateExpression(d, q, rule.level) == Success((rhs, rest))
    ensures ApplyRule(d, q, lhs, rule, prec) == EvaluateOperation(d, rest, Make2(rule.op, lhs, rhs), prec)
  {
  }

  /** An operator that ends the level builds its node from the right operand; the dialect decides what is skipped. */
  lemma EndingRule(d: Dialect, q: string, lhs: Expr, rule: Rule, prec: Syntax.Precedence, rhs: Expr, rest: string)
    requires !rule.chains && EvaluateExpression(d, q, rule.level) == Success((rhs, rest))
    ensures ApplyRule(d, q, lhs, rule, prec) == Success((Make2(rule.op, lhs, rhs), Rest(rest, EndOfLevelSkip(d))))
  {
  }

  /** A `?` at a level weaker than `k_comparison_operator` starts a conditional. */
  lemma QuestionApplies(d: Dialect, q: string, lhs: Expr, prec: Syntax.Precedence)
    requires Looser(prec, Syntax.ComparisonOperator)
    ensures EvaluateOperation(d, "?" + q, lhs, prec) == EvaluateConditional(d, q, lhs, prec)
  {
    assert ("?" + q)[0] == '?' && ("?" + q)[1..] == q;
  }

  /** A true branch not followed by `:` throws "Expected ':'". */
  lemma ConditionalWithoutColon(d: Dialect, q: string, condition: Expr, prec: Syntax.Precedence, t: Expr, rest: string)
    requires EvaluateExpression(d, q, Syntax.ComparisonOperator) == Success((t, rest)) && !StartsWith(rest, ':')
    ensures EvaluateConditional(d, q, condition, prec) == Failure("Expected ':'")
  {
  }

  /** A true branch, `:` and a false branch make the conditional. */
  lemma ConditionalWithColon(d: Dialect, q: string, condition: Expr, prec: Syntax.Precedence, t: Expr, rest: string, f: Expr, after: string)
    requires EvaluateExpression(d, q, Syntax.ComparisonOperator) == Success((t, rest)) && StartsWith(rest, ':')
    requires EvaluateExpression(d, rest[1..], prec) == Success((f, after))
    ensures EvaluateConditional(d, q, condition, prec) ==
            Success((Make3(ConditionalOperator, condition, t, f), Rest(after, EndOfLevelSkip(d))))
  {
  }

  /** An argument followed by `,` is the first of the arguments that follow. */
  lemma ArgumentThenComma(d: Dialect, p: string, a: Expr, rest: string, more: seq<Expr>, after: string)
    requires EvaluateExpression(d, p, Syntax.SuperWeak) == Success((a, rest)) && StartsWith(rest, ',')
    requires ParseArguments(d, rest[1..]) == Success((more, after))
    ensures ParseArguments(d, p) == Success(([a] + more, after))
  {
  }

  /** An argument followed by `)` is the last one. */
  lemma ArgumentThenClose(d: Dialect, p: string, a: Expr, rest: string)
    requires EvaluateExpression(d, p, Syntax.SuperWeak) == Success((a, rest)) && StartsWith(rest, ')')
    ensures ParseArguments(d, p) == Success(([a], rest[1..]))
  {
  }

  /** An argument followed by neither `,` nor `)` throws "Unexpected char". */
  lemma ArgumentThenOther(d: Dialect, p: string, a: Expr, rest: string)
    requires EvaluateExpression(d, p, Syntax.SuperWeak) == Success((a, rest))
    requires !StartsWith(rest, ',') && !StartsWith(rest, ')')
    ensures ParseArguments(d, p) == Failure("Unexpected char")
  {
  }

  //////////////////////////////////////////////////  Where the operator loop stops

  /** Characters at which the operator loop stops whatever the level. */
  predicate StopChar(c: char) {
    c == ',' || c == ')' || c == ';' || c == ':'
  }

  /** The operator loop leaves `lhs` and the text unchanged at a separator or closing parenthesis. */
  lemma StopsAt(d: Dialect, p: string, lhs: Expr, prec: Syntax.Precedence)
    requires p != [] && StopChar(p[0])
    ensures EvaluateOperation(d, p, lhs, prec) == Success((lhs, p))
  {
    NoRuleAtStop(d, p, prec);
  }

  /** No operator is spelled with a separator or a closing parenthesis. */
  lemma NoRuleAtStop(d: Dialect, p: string, prec: Syntax.Precedence)
    requires p != [] && StopChar(p[0])
    ensures OperatorRule(d, p, prec).None?
  {
    assert !StartsWith2(p, '=', '=') && !StartsWith2(p, '!', '=') && !StartsWith2(p, '<', '=');
    assert !StartsWith2(p, '>', '=') && !StartsWith2(p, '&', '&') && !StartsWith2(p, '|', '|');
  }

  /** The weakest level admits the conditional operator. */
  lemma WeakestAdmitsConditional()
    ensures Looser(Syntax.SuperWeak, Syntax.ComparisonOperator)
  {
  }

  /** At `k_super_strong` no operator binds more strongly, so the operator loop consumes nothing. */
  lemma StrongestConsumesNothing(d: Dialect, p: string, lhs: Expr)
    ensures EvaluateOperation(d, p, lhs, Syntax.SuperStrong) == Success((lhs, p))
  {
    if p != [] {
      assert OperatorRule(d, p, Syntax.SuperStrong).None?;
    }
  }

  /** A number followed by a separator is the whole operand; the separator is left. */
  lemma NumberStops(d: Dialect, a: string, t: string, prec: Syntax.Precedence)
    requires IsNumberWord(a) && t != [] && StopChar(t[0])
    ensures EvaluateExpression(d, a + t, prec) == Success((OnString(NumberConstant, a), t))
  {
    NumberThenOperation(d, a, t, prec);
    StopsAt(d, t, OnString(NumberConstant, a), prec);
  }

  /** A number at the end of the text is the whole operand. */
  lemma NumberAlone(d: Dialect, a: string, prec: Syntax.Precedence)
    requires IsNumberWord(a)
    ensures EvaluateExpression(d, a, prec) == Success((OnString(NumberConstant, a), []))
  {
    assert a + [] == a;
    NumberThenOperation(d, a, [], prec);
  }

  /** A number, then a separator or the end of the text. */
  lemma NumberOperand(d: Dialect, a: string, t: string, prec: Syntax.Precedence)
    requires IsNumberWord(a) && (t == [] || StopChar(t[0]))
    ensures EvaluateExpression(d, a + t, prec) == Success((OnString(NumberConstant, a), t))
  {
    if t == [] {
      assert a + t == a;
      NumberAlone(d, a, prec);
    } else {
      NumberStops(d, a, t, prec);
    }
  }

  //////////////////////////////////////////////////  Negation

  /** A leading `-` negates the operand that follows it and nothing more. */
  lemma NegatedNumberAtom(d: Dialect, a: string, t: string)
    requires IsNumberWord(a) && EndsNumber(t)
    ensures EvaluateAtom(d, "-" + a + t) == Success((Make1(LogicalNot, OnString(NumberConstant, a)), t))
  {
    var p := "-" + a + t;
    assert p[0] == '-' && p[1..] == a + t;
    SkipNothing(p);
    NumberThenOperation(d, a, t, Syntax.SuperStrong);
    StrongestConsumesNothing(d, t, OnString(NumberConstant, a));
    SkipNothing(t);
  }

  /** The text after a negated number goes to the operator loop with the negation as left operand. */
  lemma NegationThenOperation(d: Dialect, a: string, t: string, prec: Syntax.Precedence)
    requires IsNumberWord(a) && EndsNumber(t)
    ensures EvaluateExpression(d, "-" + a + t, prec) ==
            EvaluateOperation(d, t, Make1(LogicalNot, OnString(NumberConstant, a)), prec)
  {
    NegatedNumberAtom(d, a, t);
  }

  /** `-a o b` is `(not a) o b`: the operand of `-` is parsed at `k_super_strong`. */
  lemma NegationBindsTightest(d: Dialect, a: string, o: char, b: string)
    requires IsNumberWord(a) && IsNumberWord(b) && ArithmeticChar(o)
    ensures EvaluateExpression(d, "-" + a + [o] + b, Syntax.SuperWeak) ==
            Success((Make2(ArithmeticOperation(o), Make1(LogicalNot, OnString(NumberConstant, a)), OnString(NumberConstant, b)), []))
  {
    var t := [o] + b + [];
    assert "-" + a + [o] + b == "-" + a + t;
    ArithmeticCharEndsNumber(o, b);
    NegationThenOperation(d, a, t, Syntax.SuperWeak);
    WeakestAdmitsArithmetic(o);
    NumberThenOperation(d, b, [], ArithmeticLevel(o));
    assert b + [] == b;
    ArithmeticStep(d, o, b, [], Make1(LogicalNot, OnString(NumberConstant, a)), Syntax.SuperWeak, OnString(NumberConstant, b), []);
  }

  //////////////////////////////////////////////////  String literals

  /** A string literal is the text between the quotes; what follows the closing quote is left. */
  lemma StringLiteralSingle(d: Dialect, s: string, t: string)
    requires '"' !in s
    ensures EvaluateSingle(d, "\"" + s + "\"" + t) == Success((OnString(StringLiteral, s), t))
  {
    var p := "\"" + s + "\"" + t;
    assert p[0] == '"' && p[1..] == s + ("\"" + t);
    ReadRunOf(s, "\"" + t, {'"'}, false);
    assert ("\"" + t)[1..] == t;
  }

  /** A string literal with no closing quote runs to the end of the text. */
  lemma UnterminatedStringLiteral(d: Dialect, s: string)
    requires '"' !in s
    ensures EvaluateSingle(d, "\"" + s) == Success((OnString(StringLiteral, s), []))
  {
    var p := "\"" + s;
    assert p[0] == '"' && p[1..] == s + [];
    ReadRunOf(s, [], {'"'}, false);
  }

  //////////////////////////////////////////////////  Calls

  /** A name: identifier characters, not starting like a number. */
  predicate IsIdentifierWord(f: string) {
    f != [] && f[0] !in Syntax.NumberChars && forall i :: 0 <= i < |f| ==> f[i] in Syntax.IdentifierChars
  }

  /** A name starts neither a string literal nor a number. */
  lemma IdentifierStart(f: string, q: string)
    requires IsIdentifierWord(f)
    ensures !StartsWith(f + q, '"') && (f + q)[0] !in Syntax.NumberChars
  {
    assert (f + q)[0] == f[0];
  }

  /** After a name, `evaluate_single` continues with what follows the name. */
  lemma IdentifierSingle(d: Dialect, f: string, q: string)
    requires IsIdentifierWord(f) && (q == [] || q[0] !in Syntax.IdentifierChars)
    ensures EvaluateSingle(d, f + q) == EvaluateAfterIdentifier(d, f, q)
  {
    IdentifierStart(f, q);
    ReadRunOf([], f + q, Syntax.NumberChars, true);
    assert [] + (f + q) == f + q;
    ReadRunOf(f, q, Syntax.IdentifierChars, true);
  }

  /** `(` is not an identifier character, so a name followed by `(` ends there. */
  lemma OpenAfterName(d: Dialect, f: string, rest: string)
    requires IsIdentifierWord(f)
    ensures EvaluateSingle(d, f + ("(" + rest)) == EvaluateAfterIdentifier(d, f, "(" + rest)
  {
    assert ("(" + rest)[0] == '(';
    IdentifierSingle(d, f, "(" + rest);
  }

  /** A name followed by `(` and `)` is a call with no arguments. */
  lemma CallOpensEmpty(d: Dialect, f: string, t: string)
    ensures EvaluateAfterIdentifier(d, f, "(" + (")" + t)) == Success((Call(f, []), t))
  {
    var q := "(" + (")" + t);
    SkipNothing(q);
    assert q[0] == '(' && q[1..] == ")" + t;
    SkipNothing(")" + t);
    assert (")" + t)[1..] == t;
  }

  /** A name followed by `(` and an argument list is a call with those arguments. */
  lemma CallOpensArguments(d: Dialect, f: string, rest: string, args: seq<Expr>, after: string)
    requires rest != [] && rest[0] !in Syntax.C99WhitespaceChars && rest[0] != ')'
    requires ParseArguments(d, rest) == Success((args, after))
    ensures EvaluateAfterIdentifier(d, f, "(" + rest) == Success((Call(f, args), after))
  {
    var q := "(" + rest;
    SkipNothing(q);
    assert q[0] == '(' && q[1..] == rest;
    SkipNothing(rest);
  }

  /** `f()` is a call with no arguments. */
  lemma CallWithoutArguments(d: Dialect, f: string, t: string)
    requires IsIdentifierWord(f)
    ensures EvaluateSingle(d, f + "()" + t) == Success((Call(f, []), t))
  {
    assert f + "()" + t == f + ("(" + (")" + t));
    OpenAfterName(d, f, ")" + t);
    CallOpensEmpty(d, f, t);
  }

  /** The last argument of a call: an expression followed by `)`. */
  lemma LastArgument(d: Dialect, b: string, t: string)
    requires IsNumberWord(b)
    ensures ParseArguments(d, b + ")" + t) == Success(([OnString(NumberConstant, b)], t))
  {
    assert b + ")" + t == b + (")" + t);
    assert (")" + t)[0] == ')' && (")" + t)[1..] == t;
    NumberStops(d, b, ")" + t, Syntax.SuperWeak);
    ArgumentThenClose(d, b + (")" + t), OnString(NumberConstant, b), ")" + t);
  }

  /** Arguments separated by `,` and closed by `)`. */
  lemma TwoArguments(d: Dialect, a: string, b: string, t: string)
    requires IsNumberWord(a) && IsNumberWord(b)
    ensures ParseArguments(d, a + "," + b + ")" + t) ==
            Success(([OnString(NumberConstant, a), OnString(NumberConstant, b)], t))
  {
    var rest := b + ")" + t;
    assert a + "," + b + ")" + t == a + ("," + rest);
    assert ("," + rest)[0] == ',' && ("," + rest)[1..] == rest;
    assert [OnString(NumberConstant, a)] + [OnString(NumberConstant, b)] == [OnString(NumberConstant, a), OnString(NumberConstant, b)];
    NumberStops(d, a, "," + rest, Syntax.SuperWeak);
    LastArgument(d, b, t);
    ArgumentThenComma(d, a + ("," + rest), OnString(NumberConstant, a), "," + rest, [OnString(NumberConstant, b)], t);
  }

  /** `f(a, b)`: a call with both arguments in order; the text after `)` is left. */
  lemma CallWithTwoArguments(d: Dialect, f: string, a: string, b: string, t: string)
    requires IsIdentifierWord(f) && IsNumberWord(a) && IsNumberWord(b)
    ensures EvaluateSingle(d, f + "(" + a + "," + b + ")" + t) ==
            Success((Call(f, [OnString(NumberConstant, a), OnString(NumberConstant, b)]), t))
  {
    var rest := a + "," + b + ")" + t;
    assert f + "(" + a + "," + b + ")" + t == f + ("(" + rest);
    assert rest[0] == a[0];
    assert rest[0] !in Syntax.C99WhitespaceChars && rest[0] != ')';
    OpenAfterName(d, f, rest);
    TwoArguments(d, a, b, t);
    CallOpensArguments(d, f, rest, [OnString(NumberConstant, a), OnString(NumberConstant, b)], t);
  }

  /** An argument followed by anything but `,` or `)` throws "Unexpected char". */
  lemma ArgumentSeparatorRequired(d: Dialect, a: string, t: string)
    requires IsNumberWord(a)
    ensures ParseArguments(d, a + ";" + t) == Failure("Unexpected char")
  {
    assert a + ";" + t == a + (";" + t);
    assert (";" + t)[0] == ';';
    NumberStops(d, a, ";" + t, Syntax.SuperWeak);
    ArgumentThenOther(d, a + (";" + t), OnString(NumberConstant, a), ";" + t);
  }

  //////////////////////////////////////////////////  Parentheses

  /** A parenthesised expression must be followed by `)`; otherwise "Expected ')'" is thrown. */
  lemma ParenthesisNeedsClose(d: Dialect, q: string, e: Expr, rest: string)
    requires EvaluateExpression(d, q, Syntax.SuperWeak) == Success((e, rest))
    ensures EvaluateAtom(d, "(" + q) ==
            if StartsWith(rest, ')') then Success((e, SkipWhitespace(rest[1..]))) else Failure("Expected ')'")
  {
    var p := "(" + q;
    SkipNothing(p);
    assert p[0] == '(' && p[1..] == q;
  }

  //////////////////////////////////////////////////  The conditional operator

  /** `a ? b : c` builds the conditional of the three operands. */
  lemma ConditionalOfNumbers(d: Dialect, a: string, b: string, c: string)
    requires IsNumberWord(a) && IsNumberWord(b) && IsNumberWord(c)
    ensures EvaluateExpression(d, a + "?" + b + ":" + c, Syntax.SuperWeak) ==
            Success((Make3(ConditionalOperator, OnString(NumberConstant, a), OnString(NumberConstant, b), OnString(NumberConstant, c)), []))
  {
    var q := b + (":" + c);
    assert a + "?" + b + ":" + c == a + ("?" + q);
    assert ("?" + q)[0] == '?' && (":" + c)[0] == ':' && (":" + c)[1..] == c;
    WeakestAdmitsConditional();
    NumberThenOperation(d, a, "?" + q, Syntax.SuperWeak);
    QuestionApplies(d, q, OnString(NumberConstant, a), Syntax.SuperWeak);
    NumberStops(d, b, ":" + c, Syntax.ComparisonOperator);
    NumberAlone(d, c, Syntax.SuperWeak);
    ConditionalWithColon(d, q, OnString(NumberConstant, a), Syntax.SuperWeak,
                         OnString(NumberConstant, b), ":" + c, OnString(NumberConstant, c), []);
  }

  /** `a ? b` with no `:` throws "Expected ':'". */
  lemma ConditionalNeedsColon(d: Dialect, a: string, b: string)
    requires IsNumberWord(a) && IsNumberWord(b)
    ensures EvaluateExpression(d, a + "?" + b, Syntax.SuperWeak) == Failure("Expected ':'")
  {
    assert a + "?" + b == a + ("?" + b);
    assert ("?" + b)[0] == '?';
    WeakestAdmitsConditional();
    NumberThenOperation(d, a, "?" + b, Syntax.SuperWeak);
    QuestionApplies(d, b, OnString(NumberConstant, a), Syntax.SuperWeak);
    NumberAlone(d, b, Syntax.ComparisonOperator);
    ConditionalWithoutColon(d, b, OnString(NumberConstant, a), Syntax.SuperWeak, OnString(NumberConstant, b), []);
  }

  //////////////////////////////////////////////////  Comparisons

  /** The six comparison and equality operators. */
  predicate IsComparison(op: Operation) {
    op.SmallerOrEqual? || op.Smaller? || op.LargerOrEqual? || op.Larger? || op.LogicalEqual? || op.LogicalNonequal?
  }

  function ComparisonLevel(op: Operation): Syntax.Precedence {
    if op.LogicalEqual? || op.LogicalNonequal? then Syntax.EqualNotEqual else Syntax.LargerSmaller
  }

  /** How many characters the parser skips for a comparison operator. */
  function ComparisonWidth(d: Dialect, op: Operation): nat {
    if op.Smaller? || op.Larger? then SingleComparisonWidth(d) else 2
  }

  /** The rule the parser applies for a comparison operator. */
  function ComparisonRuleOf(d: Dialect, op: Operation): Rule {
    Rule(op, ComparisonLevel(op), ComparisonWidth(d, op), false)
  }

  /** What the spelling of a comparison looks like to the rest of the parser. */
  lemma ComparisonSpelling(op: Operation, q: string)
    requires IsComparison(op)
    ensures EndsNumber(Token(op) + q) && (Token(op) + q)[0] != ')' && (Token(op) + q)[0] != '?'
    ensures |Token(op)| == ComparisonWidth(Corrected, op)
    ensures Rest(Token(op) + q, |Token(op)|) == q
    ensures Looser(Syntax.SuperWeak, ComparisonLevel(op))
  {
    assert (Token(op) + q)[0] == Token(op)[0];
    assert (Token(op) + q)[|Token(op)|..] == q;
  }

  /** A comparison spelled at the front of the text, not followed by `=`, is the rule that applies. */
  lemma ComparisonRule(d: Dialect, op: Operation, q: string, prec: Syntax.Precedence)
    requires IsComparison(op) && (q == [] || q[0] != '=') && Looser(prec, ComparisonLevel(op))
    ensures OperatorRule(d, Token(op) + q, prec) == Some(ComparisonRuleOf(d, op))
  {
    var p := Token(op) + q;
    assert p[0] == Token(op)[0];
    if |Token(op)| == 2 {
      assert p[1] == Token(op)[1];
    } else if q != [] {
      assert p[1] == q[0];
    }
  }

  /** The left operand of a comparison is a number and the comparison's rule applies after it. */
  lemma ComparisonAfterNumber(d: Dialect, op: Operation, a: string, q: string)
    requires IsComparison(op) && IsNumberWord(a) && (q == [] || q[0] != '=')
    ensures EvaluateExpression(d, a + Token(op) + q, Syntax.SuperWeak) ==
            ApplyRule(d, Rest(Token(op) + q, ComparisonWidth(d, op)), OnString(NumberConstant, a), ComparisonRuleOf(d, op), Syntax.SuperWeak)
  {
    assert a + Token(op) + q == a + (Token(op) + q);
    ComparisonSpelling(op, q);
    NumberThenOperation(d, a, Token(op) + q, Syntax.SuperWeak);
    ComparisonRule(d, op, q, Syntax.SuperWeak);
    RuleApplies(d, Token(op) + q, OnString(NumberConstant, a), Syntax.SuperWeak, ComparisonRuleOf(d, op));
  }

  /**
   * The corrected parser reads `a op b` for every comparison and equality
   * operator: both operands, and the text after `b` left untouched.
   */
  lemma CorrectedComparison(op: Operation, a: string, b: string, t: string)
    requires IsComparison(op) && IsNumberWord(a) && IsNumberWord(b) && (t == [] || StopChar(t[0]))
    ensures EvaluateExpression(Corrected, a + Token(op) + b + t, Syntax.SuperWeak) ==
            Success((Make2(op, OnString(NumberConstant, a), OnString(NumberConstant, b)), t))
  {
    var q := b + t;
    assert a + Token(op) + b + t == a + Token(op) + q;
    assert q[0] == b[0];
    ComparisonSpelling(op, q);
    ComparisonAfterNumber(Corrected, op, a, q);
    NumberOperand(Corrected, b, t, ComparisonLevel(op));
    EndingRule(Corrected, q, OnString(NumberConstant, a), ComparisonRuleOf(Corrected, op), Syntax.SuperWeak, OnString(NumberConstant, b), t);
  }

  /**
   * As written, `a < b` and `a > b` with a one-character `b` and no space
   * skip `b` along with the operator and throw "Unexpected end of string".
   */
  lemma SingleComparisonAsWrittenFails(op: Operation, a: string, b: string)
    requires (op.Smaller? || op.Larger?) && IsNumberWord(a) && IsNumberWord(b) && |b| == 1
    ensures EvaluateExpression(AsWritten, a + Token(op) + b, Syntax.SuperWeak) == Failure("Unexpected end of string")
  {
    ComparisonAfterNumber(AsWritten, op, a, b);
    assert Rest(Token(op) + b, 2) == [];
    EmptyInput(AsWritten, [], ComparisonLevel(op));
  }

  /**
   * As written, a comparison inside parentheses skips the `)` after its
   * right operand, so `(a == b)` throws "Expected ')'".
   */
  lemma ParenthesisedComparisonAsWrittenFails(op: Operation, a: string, b: string)
    requires IsComparison(op) && !op.Smaller? && !op.Larger? && IsNumberWord(a) && IsNumberWord(b)
    ensures EvaluateAtom(AsWritten, "(" + a + Token(op) + b + ")") == Failure("Expected ')'")
  {
    var q := b + ")";
    var inner := a + Token(op) + q;
    assert "(" + a + Token(op) + b + ")" == "(" + inner;
    assert q[0] == b[0];
    ComparisonSpelling(op, q);
    ComparisonAfterNumber(AsWritten, op, a, q);
    NumberStops(AsWritten, b, ")", ComparisonLevel(op));
    var e := Make2(op, OnString(NumberConstant, a), OnString(NumberConstant, b));
    EndingRule(AsWritten, q, OnString(NumberConstant, a), ComparisonRuleOf(AsWritten, op), Syntax.SuperWeak, OnString(NumberConstant, b), ")");
    ParenthesisNeedsClose(AsWritten, inner, e, []);
  }

  /** The corrected parser reads a parenthesised comparison as the comparison. */
  lemma ParenthesisedComparison(op: Operation, a: string, b: string)
    requires IsComparison(op) && IsNumberWord(a) && IsNumberWord(b)
    ensures EvaluateAtom(Corrected, "(" + a + Token(op) + b + ")") ==
            Success((Make2(op, OnString(NumberConstant, a), OnString(NumberConstant, b)), []))
  {
    var inner := a + Token(op) + b + ")";
    assert "(" + a + Token(op) + b + ")" == "(" + inner;
    CorrectedComparison(op, a, b, ")");
    ParenthesisNeedsClose(Corrected, inner, Make2(op, OnString(NumberConstant, a), OnString(NumberConstant, b)), ")");
    SkipNothing([]);
  }

  /**
   * As written, a comparison as the last argument of a call skips the `)`
   * after it, so `f(a == b)` throws "Unexpected char".
   */
  lemma ComparisonArgumentAsWrittenFails(op: Operation, a: string, b: string)
    requires IsComparison(op) && !op.Smaller? && !op.Larger? && IsNumberWord(a) && IsNumberWord(b)
    ensures ParseArguments(AsWritten, a + Token(op) + b + ")") == Failure("Unexpected char")
  {
    var q := b + ")";
    assert a + Token(op) + b + ")" == a + Token(op) + q;
    assert q[0] == b[0];
    ComparisonSpelling(op, q);
    ComparisonAfterNumber(AsWritten, op, a, q);
    NumberStops(AsWritten, b, ")", ComparisonLevel(op));
    var e := Make2(op, OnString(NumberConstant, a), OnString(NumberConstant, b));
    EndingRule(AsWritten, q, OnString(NumberConstant, a), ComparisonRuleOf(AsWritten, op), Syntax.SuperWeak, OnString(NumberConstant, b), ")");
    ArgumentThenOther(AsWritten, a + Token(op) + q, e, []);
  }

  /** The corrected parser reads `f(a op b)` with the comparison as the only argument. */
  lemma ComparisonArgument(op: Operation, a: string, b: string, t: string)
    requires IsComparison(op) && IsNumberWord(a) && IsNumberWord(b)
    ensures ParseArguments(Corrected, a + Token(op) + b + ")" + t) ==
            Success(([Make2(op, OnString(NumberConstant, a), OnString(NumberConstant, b))], t))
  {
    var t' := ")" + t;
    assert a + Token(op) + b + ")" + t == a + Token(op) + b + t';
    assert t'[0] == ')' && t'[1..] == t;
    CorrectedComparison(op, a, b, t');
    ArgumentThenClose(Corrected, a + Token(op) + b + t', Make2(op, OnString(NumberConstant, a), OnString(NumberConstant, b)), t');
  }
}
