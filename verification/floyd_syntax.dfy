/**
 * The syntax tables of the language: character sets, operator precedence
 * and the expression-type codes with their classification predicates.
 */
module FloydSyntax {
  import opened Wrappers

  // The character tables are only ever searched for membership, so they are sets here.
  const NumberChars: set<char> := {'0', '1', '2', '3', '4', '5', '6', '7', '8', '9', '.'}
  const C99WhitespaceChars: set<char> := {' ', '\n', '\t', '\r'}
  /** The letters, the digits and `_`. */
  const IdentifierChars: set<char> := set c: char | 'a' <= c <= 'z' || 'A' <= c <= 'Z' || '0' <= c <= '9' || c == '_'
  const C99IdentifierChars: set<char> := IdentifierChars
  const WhitespaceChars: set<char> := {' ', '\n', '\t'}
  const BracketPairs: string := "(){}[]"

  //////////////////////////////////////////////////  eoperator_precedence

  /** `eoperator_precedence`: a lower number binds more strongly. */
  datatype Precedence =
    | SuperStrong
    | Parenthesis
    | FunctionCall
    | Lookup
    | MemberAccess
    | MultiplyDividerRemainder
    | AddSub
    | LargerSmaller
    | EqualNotEqual
    | LogicalAnd
    | LogicalOr
    | ComparisonOperator
    | SuperWeak

  /** The numeric value of each precedence constant; `k_super_weak` follows `k_comparison_operator`. */
  function PrecedenceValue(p: Precedence): (r: nat)
    ensures r <= 16
  {
    match p
    case SuperStrong => 0
    case Parenthesis => 0
    case FunctionCall => 2
    case Lookup => 2
    case MemberAccess => 2
    case MultiplyDividerRemainder => 5
    case AddSub => 6
    case LargerSmaller => 8
    case EqualNotEqual => 9
    case LogicalAnd => 13
    case LogicalOr => 14
    case ComparisonOperator => 15
    case SuperWeak => 16
  }

  /** The C99 binding order: each level in the chain binds strictly more weakly than the one before. */
  lemma PrecedenceStrictlyIncreasing()
    ensures var chain := [Parenthesis, FunctionCall, MultiplyDividerRemainder, AddSub, LargerSmaller,
                          EqualNotEqual, LogicalAnd, LogicalOr, ComparisonOperator, SuperWeak];
            forall i, j :: 0 <= i < j < |chain| ==> PrecedenceValue(chain[i]) < PrecedenceValue(chain[j])
    ensures PrecedenceValue(FunctionCall) == PrecedenceValue(Lookup) == PrecedenceValue(MemberAccess)
    ensures PrecedenceValue(SuperStrong) == PrecedenceValue(Parenthesis)
  {
    var chain := [Parenthesis, FunctionCall, MultiplyDividerRemainder, AddSub, LargerSmaller,
                  EqualNotEqual, LogicalAnd, LogicalOr, ComparisonOperator, SuperWeak];
    forall i, j | 0 <= i < j < |chain|
      ensures PrecedenceValue(chain[i]) < PrecedenceValue(chain[j])
    {
      ChainValue(chain, i);
      ChainValue(chain, j);
    }
  }

  /** Along the chain, the value of entry `i` is the `i`-th of the increasing list below. */
  lemma ChainValue(chain: seq<Precedence>, i: nat)
    requires chain == [Parenthesis, FunctionCall, MultiplyDividerRemainder, AddSub, LargerSmaller,
                       EqualNotEqual, LogicalAnd, LogicalOr, ComparisonOperator, SuperWeak]
    requires i < |chain|
    ensures PrecedenceValue(chain[i]) == [0, 2, 5, 6, 8, 9, 13, 14, 15, 16][i]
  {
  }

  //////////////////////////////////////////////////  expression_type

  /** `expression_type`, in declaration order. */
  datatype ExpressionType =
    | ArithmeticAdd
    | ArithmeticSubtract
    | ArithmeticMultiply
    | ArithmeticDivide
    | ArithmeticRemainder
    | ComparisonSmallerOrEqual
    | ComparisonSmaller
    | ComparisonLargerOrEqual
    | ComparisonLarger
    | LogicalEqual
    | LogicalNonequal
    | LogicalAnd2
    | LogicalOr2
    | Literal
    | ArithmeticUnaryMinus
    | ConditionalOperator3
    | Call
    | Load
    | Load2
    | ResolveMember
    | LookupElement
    | DefineStruct
    | DefineFunction
    | ConstructValue

  /** The declaration position of each constant. */
  function Ordinal(e: ExpressionType): (r: nat)
    ensures r < 24
  {
    match e
    case ArithmeticAdd => 0
    case ArithmeticSubtract => 1
    case ArithmeticMultiply => 2
    case ArithmeticDivide => 3
    case ArithmeticRemainder => 4
    case ComparisonSmallerOrEqual => 5
    case ComparisonSmaller => 6
    case ComparisonLargerOrEqual => 7
    case ComparisonLarger => 8
    case LogicalEqual => 9
    case LogicalNonequal => 10
    case LogicalAnd2 => 11
    case LogicalOr2 => 12
    case Literal => 13
    case ArithmeticUnaryMinus => 14
    case ConditionalOperator3 => 15
    case Call => 16
    case Load => 17
    case Load2 => 18
    case ResolveMember => 19
    case LookupElement => 20
    case DefineStruct => 21
    case DefineFunction => 22
    case ConstructValue => 23
  }

  /** The numeric code: the first constant is 10 and each later one follows the previous. */
  function Code(e: ExpressionType): int {
    10 + Ordinal(e)
  }

  /** `static_cast<expression_type>(code)`, defined only for the codes of declared constants. */
  function FromCode(code: int): (r: Option<ExpressionType>)
    ensures r.Some? <==> 10 <= code <= 33
  {
    if code == 10 then Some(ArithmeticAdd)
    else if code == 11 then Some(ArithmeticSubtract)
    else if code == 12 then Some(ArithmeticMultiply)
    else if code == 13 then Some(ArithmeticDivide)
    else if code == 14 then Some(ArithmeticRemainder)
    else if code == 15 then Some(ComparisonSmallerOrEqual)
    else if code == 16 then Some(ComparisonSmaller)
    else if code == 17 then Some(ComparisonLargerOrEqual)
    else if code == 18 then Some(ComparisonLarger)
    else if code == 19 then Some(LogicalEqual)
    else if code == 20 then Some(LogicalNonequal)
    else if code == 21 then Some(LogicalAnd2)
    else if code == 22 then Some(LogicalOr2)
    else if code == 23 then Some(Literal)
    else if code == 24 then Some(ArithmeticUnaryMinus)
    else if code == 25 then Some(ConditionalOperator3)
    else if code == 26 then Some(Call)
    else if code == 27 then Some(Load)
    else if code == 28 then Some(Load2)
    else if code == 29 then Some(ResolveMember)
    else if code == 30 then Some(LookupElement)
    else if code == 31 then Some(DefineStruct)
    else if code == 32 then Some(DefineFunction)
    else if code == 33 then Some(ConstructValue)
    else None
  }

  /** The codes are 10..33, one per constant: decoding a constant's code gives it back and vice versa. */
  lemma CodesConsecutive(e: ExpressionType, code: int)
    ensures 10 <= Code(e) <= 33
    ensures FromCode(Code(e)) == Some(e)
    ensures FromCode(code).Some? ==> Code(FromCode(code).value) == code
  {
  }

  /** Distinct constants have distinct codes. */
  lemma CodeInjective(a: ExpressionType, b: ExpressionType)
    ensures Code(a) == Code(b) <==> a == b
  {
    CodesConsecutive(a, Code(a));
    CodesConsecutive(b, Code(b));
  }

  /** `is_arithmetic_expression`. */
  predicate IsArithmetic(op: ExpressionType) {
    op == ArithmeticAdd || op == ArithmeticSubtract || op == ArithmeticMultiply ||
    op == ArithmeticDivide || op == ArithmeticRemainder || op == LogicalAnd2 || op == LogicalOr2
  }

  /** `is_comparison_expression`. */
  predicate IsComparison(op: ExpressionType) {
    op == ComparisonSmallerOrEqual || op == ComparisonSmaller || op == ComparisonLargerOrEqual ||
    op == ComparisonLarger || op == LogicalEqual || op == LogicalNonequal
  }

  /**
   * The two classes are disjoint and together are exactly the thirteen
   * binary operators, the constants with codes 10 to 22.
   */
  lemma BinaryOperatorClasses(op: ExpressionType)
    ensures !(IsArithmetic(op) && IsComparison(op))
    ensures IsArithmetic(op) || IsComparison(op) <==> 10 <= Code(op) <= 22
    ensures IsComparison(op) <==> 15 <= Code(op) <= 20
  {
  }

  /** The source token of each binary operator, as documented beside each constant. */
  function Token(op: ExpressionType): string
    requires IsArithmetic(op) || IsComparison(op)
  {
    match op
    case ArithmeticAdd => "+"
    case ArithmeticSubtract => "-"
    case ArithmeticMultiply => "*"
    case ArithmeticDivide => "/"
    case ArithmeticRemainder => "%"
    case ComparisonSmallerOrEqual => "<="
    case ComparisonSmaller => "<"
    case ComparisonLargerOrEqual => ">="
    case ComparisonLarger => ">"
    case LogicalEqual => "=="
    case LogicalNonequal => "!="
    case LogicalAnd2 => "&&"
    case LogicalOr2 => "||"
  }

  /** `is_simple_expression__2`. */
  predicate IsSimpleExpression2(op: string) {
    op == "+" || op == "-" || op == "*" || op == "/" || op == "%"
    || op == "<=" || op == "<" || op == ">=" || op == ">"
    || op == "==" || op == "!=" || op == "&&" || op == "||"
  }

  /** The simple two-operand tokens are exactly the tokens of the arithmetic and comparison operators. */
  lemma SimpleTokensAreBinaryOperators(op: string)
    ensures IsSimpleExpression2(op) <==> exists e :: (IsArithmetic(e) || IsComparison(e)) && Token(e) == op
  {
    if IsSimpleExpression2(op) {
      var e :=
        if op == "+" then ArithmeticAdd else if op == "-" then ArithmeticSubtract
        else if op == "*" then ArithmeticMultiply else if op == "/" then ArithmeticDivide
        else if op == "%" then ArithmeticRemainder else if op == "<=" then ComparisonSmallerOrEqual
        else if op == "<" then ComparisonSmaller else if op == ">=" then ComparisonLargerOrEqual
        else if op == ">" then ComparisonLarger else if op == "==" then LogicalEqual
        else if op == "!=" then LogicalNonequal else if op == "&&" then LogicalAnd2 else LogicalOr2;
      assert Token(e) == op;
    }
  }

  /** Different binary operators have different tokens. */
  lemma TokensDistinct(a: ExpressionType, b: ExpressionType)
    requires IsArithmetic(a) || IsComparison(a)
    requires IsArithmetic(b) || IsComparison(b)
    ensures Token(a) == Token(b) <==> a == b
  {
  }
}
