/**
 * The statement-shape classifier of the prototype parser: it looks at a
 * statement that starts with no keyword and decides whether it binds,
 * assigns, defines a function or is an expression statement, returning
 * the pieces as strings and the input position unchanged.
 */
module PrefixlessStatement {
  import opened Wrappers
  import Syntax = FloydSyntax

  //////////////////////////////////////////////////  Text helpers

  /** `whitespace_chars`. */
  predicate AllWhitespace(w: string) {
    forall i :: 0 <= i < |w| ==> w[i] in Syntax.WhitespaceChars
  }

  /** `skip_whitespace`: the text after its leading whitespace. */
  function SkipLeading(s: string): (r: string)
    ensures |r| <= |s| && r == s[|s| - |r|..]
    ensures AllWhitespace(s[..|s| - |r|])
    ensures r == [] || r[0] !in Syntax.WhitespaceChars
  {
    if s == [] || s[0] !in Syntax.WhitespaceChars then s
    else
      var r := SkipLeading(s[1..]);
      LeadingStep(s, r);
      r
  }

  /** One more whitespace character in front keeps `r` a suffix after whitespace only. */
  lemma LeadingStep(s: string, r: string)
    requires s != [] && s[0] in Syntax.WhitespaceChars
    requires |r| <= |s| - 1 && r == s[1..][|s| - 1 - |r|..] && AllWhitespace(s[1..][..|s| - 1 - |r|])
    ensures r == s[|s| - |r|..] && AllWhitespace(s[..|s| - |r|])
  {
    var k := |s| - |r|;
    assert s[1..][k - 1..] == s[k..];
    assert forall i :: 1 <= i < k ==> s[..k][i] == s[1..][..k - 1][i - 1];
  }

  /** The text without its trailing whitespace. */
  function SkipTrailing(s: string): (r: string)
    ensures |r| <= |s| && r == s[..|r|]
    ensures AllWhitespace(s[|r|..])
    ensures r == [] || r[|r| - 1] !in Syntax.WhitespaceChars
  {
    if s == [] || s[|s| - 1] !in Syntax.WhitespaceChars then s
    else
      var r := SkipTrailing(s[..|s| - 1]);
      TrailingStep(s, r);
      r
  }

  /** One more whitespace character behind keeps `r` a prefix before whitespace only. */
  lemma TrailingStep(s: string, r: string)
    requires s != [] && s[|s| - 1] in Syntax.WhitespaceChars
    requires |r| <= |s| - 1 && r == s[..|s| - 1][..|r|] && AllWhitespace(s[..|s| - 1][|r|..])
    ensures r == s[..|r|] && AllWhitespace(s[|r|..])
  {
    assert s[..|s| - 1][..|r|] == s[..|r|];
    assert forall i :: |r| <= i < |s| - 1 ==> s[i] == s[..|s| - 1][|r|..][i - |r|];
  }

  /** `skip_whitespace_ends`: the text without whitespace at either end. */
  function Trim(s: string): (r: string)
    ensures r == [] || (r[0] !in Syntax.WhitespaceChars && r[|r| - 1] !in Syntax.WhitespaceChars)
  {
    var t := SkipLeading(s);
    var r := SkipTrailing(t);
    assert r != [] ==> r[0] == t[0];
    r
  }

  /** `reverse`. */
  function Reverse(s: string): (r: string)
    ensures |r| == |s|
  {
    if s == [] then [] else Reverse(s[1..]) + [s[0]]
  }

  /** Reversing puts each character at the mirrored position. */
  lemma {:induction false} ReverseAt(s: string)
    ensures forall i :: 0 <= i < |s| ==> Reverse(s)[i] == s[|s| - 1 - i]
    decreases |s|
  {
    if s != [] {
      ReverseAt(s[1..]);
    }
  }

  /** How an opening or closing bracket changes the nesting depth. */
  function Delta(c: char): int {
    if c == '(' || c == '[' || c == '{' then 1
    else if c == ')' || c == ']' || c == '}' then -1
    else 0
  }

  /** The nesting depth after the whole text, relative to its start. */
  function Net(s: string): int {
    if s == [] then 0 else Delta(s[0]) + Net(s[1..])
  }

  /** The first position at nesting depth zero holding one of `stops`, starting at `depth`. */
  function FindTopLevel(s: string, stops: set<char>, depth: int): (r: Option<nat>)
    ensures r.Some? ==> r.value < |s| && s[r.value] in stops
  {
    if s == [] then None
    else if depth == 0 && s[0] in stops then Some(0)
    else
      match FindTopLevel(s[1..], stops, depth + Delta(s[0]))
      case None => None
      case Some(k) => Some(k + 1)
  }

  /**
   * `read_until_toplevel_match`: the text before the first of `stops` that
   * is outside every bracket, and the text from there on; with no such
   * character, nothing is read.
   */
  function ReadUntilToplevel(s: string, stops: set<char>): (r: (string, string))
    ensures r.0 + r.1 == s
    ensures r.0 != [] ==> r.1 != [] && r.1[0] in stops
  {
    match FindTopLevel(s, stops, 0)
    case None => ([], s)
    case Some(k) =>
      assert s[..k] + s[k..] == s;
      (s[..k], s[k..])
  }

  /** `k_backward_brackets`: in reversed text `)`, `}` and `]` open a group and `(`, `{` and `[` close it. */
  function BackwardDelta(c: char): int {
    if c == ')' || c == '}' || c == ']' then 1
    else if c == '(' || c == '{' || c == '[' then -1
    else 0
  }

  /** `read_balanced2` over reversed text: the length of the bracket group at the front, if it closes. */
  function BalancedLength(s: string, depth: int): (r: Option<nat>)
    ensures r.Some? ==> 1 <= r.value <= |s|
  {
    if s == [] then None
    else
      var d := depth + BackwardDelta(s[0]);
      if d <= 0 then Some(1)
      else
        match BalancedLength(s[1..], d)
        case None => None
        case Some(k) => Some(k + 1)
  }

  //////////////////////////////////////////////////  concat_strings

  /** What `concat_strings` builds: `"\t|\t" + e` for each element, in order. */
  function Joined(v: seq<string>): string {
    if v == [] then [] else Joined(v[..|v| - 1]) + "\t|\t" + v[|v| - 1]
  }

  /** The total length of the elements. */
  function TotalLength(v: seq<string>): nat {
    if v == [] then 0 else TotalLength(v[..|v| - 1]) + |v[|v| - 1]|
  }

  /** `concat_strings`. */
  method ConcatStrings(v: seq<string>) returns (result: string)
    ensures result == Joined(v)
  {
    if |v| == 0 {
      return "";
    }
    result := "";
    var i := 0;
    while i < |v|
      invariant 0 <= i <= |v|
      invariant result == Joined(v[..i])
    {
      assert v[..i + 1][..i] == v[..i];
      result := result + "\t|\t" + v[i];
      i := i + 1;
    }
    assert v[..i] == v;
  }

  /** Joining distributes over concatenation of the lists. */
  lemma {:induction false} JoinedAppend(a: seq<string>, b: seq<string>)
    ensures Joined(a + b) == Joined(a) + Joined(b)
    decreases |b|
  {
    if b == [] {
      assert a + b == a;
    } else {
      var b' := b[..|b| - 1];
      assert (a + b)[..|a + b| - 1] == a + b';
      JoinedAppend(a, b');
    }
  }

  /** Each element adds three separator characters and itself. */
  lemma {:induction false} JoinedLength(v: seq<string>)
    ensures |Joined(v)| == 3 * |v| + TotalLength(v)
    decreases |v|
  {
    if v != [] {
      JoinedLength(v[..|v| - 1]);
    }
  }

  //////////////////////////////////////////////////  split_at_tail_identifier

  /** The length of the longest suffix of `s` made of characters in `chars`. */
  function TrailingRun(s: string, chars: set<char>): (r: nat)
    ensures r <= |s|
    ensures forall i :: |s| - r <= i < |s| ==> s[i] in chars
    ensures r < |s| ==> s[|s| - r - 1] !in chars
  {
    if s == [] || s[|s| - 1] !in chars then 0
    else 1 + TrailingRun(s[..|s| - 1], chars)
  }

  /** Where `split_at_tail_identifier` cuts `s`: before the identifier at the end of `s` and any whitespace after it. */
  function SplitPoint(s: string): (k: nat)
    ensures k <= |s|
  {
    var k0 := |s| - TrailingRun(s, Syntax.WhitespaceChars);
    k0 - TrailingRun(s[..k0], Syntax.IdentifierChars)
  }

  /**
   * From the cut on there are only identifier characters followed by
   * whitespace, and the character before the cut could not extend that
   * tail.
   */
  lemma SplitPointTail(s: string)
    ensures var k := SplitPoint(s);
            (forall i :: k <= i < |s| ==> s[i] in Syntax.IdentifierChars || s[i] in Syntax.WhitespaceChars) &&
            (forall i, j :: k <= i < j < |s| && s[i] in Syntax.WhitespaceChars ==> s[j] in Syntax.WhitespaceChars) &&
            (k > 0 ==> s[k - 1] !in Syntax.IdentifierChars) &&
            (k > 0 && AllWhitespace(s[k..]) ==> s[k - 1] !in Syntax.WhitespaceChars)
  {
    var k0 := |s| - TrailingRun(s, Syntax.WhitespaceChars);
    var k := k0 - TrailingRun(s[..k0], Syntax.IdentifierChars);
    WhitespaceIsNoIdentifierChar();
    assert forall i :: k <= i < k0 ==> s[i] == s[..k0][i];
  }

  /** `split_at_tail_identifier`: the text before the cut without its leading whitespace, and the text after it. */
  function TailIdentifierSplit(s: string): (r: (string, string))
    ensures r.1 == s[SplitPoint(s)..]
  {
    (SkipLeading(s[..SplitPoint(s)]), s[SplitPoint(s)..])
  }

  /** The two parts are the input with only leading whitespace dropped. */
  lemma TailIdentifierSplitRebuilds(s: string)
    ensures var (pre, identifier) := TailIdentifierSplit(s);
            |pre| + |identifier| <= |s| && s[|s| - |pre| - |identifier|..] == pre + identifier &&
            AllWhitespace(s[..|s| - |pre| - |identifier|])
  {
    var k := SplitPoint(s);
    assert s == s[..k] + s[k..];
    SuffixRebuilds(s[..k], s[k..], SkipLeading(s[..k]));
  }

  /** A suffix of `a` after whitespace, followed by `b`: the whole of `a + b` without only that whitespace. */
  lemma SuffixRebuilds(a: string, b: string, pre: string)
    requires |pre| <= |a| && pre == a[|a| - |pre|..] && AllWhitespace(a[..|a| - |pre|])
    ensures |pre| + |b| <= |a + b| && (a + b)[|a + b| - |pre| - |b|..] == pre + b &&
            AllWhitespace((a + b)[..|a + b| - |pre| - |b|])
  {
    var k := |a| - |pre|;
    assert |a + b| - |pre| - |b| == k;
    assert (a + b)[k..] == a[k..] + b;
    assert (a + b)[..k] == a[..k];
  }

  /** Brackets and `;` are not whitespace. */
  lemma BracketsAreNoWhitespace()
    ensures '(' !in Syntax.WhitespaceChars && ')' !in Syntax.WhitespaceChars && ';' !in Syntax.WhitespaceChars
  {
  }

  /** No character is both whitespace and an identifier character. */
  lemma WhitespaceIsNoIdentifierChar()
    ensures forall c :: c in Syntax.WhitespaceChars ==> c !in Syntax.IdentifierChars
  {
  }

  /** `split_at_tail_identifier` as written: two loops walking `i` back from the end. */
  method SplitAtTailIdentifier(s: string) returns (preIdentifier: string, identifier: string)
    ensures (preIdentifier, identifier) == TailIdentifierSplit(s)
  {
    var i := |s|;
    while i > 0 && s[i - 1] in Syntax.WhitespaceChars
      invariant 0 <= i <= |s|
      invariant TrailingRun(s[..i], Syntax.WhitespaceChars) + (|s| - i) == TrailingRun(s, Syntax.WhitespaceChars)
    {
      TrailingRunStep(s, i, Syntax.WhitespaceChars);
      i := i - 1;
    }
    ghost var k0 := i;
    TrailingRunStops(s, i, Syntax.WhitespaceChars);
    while i > 0 && s[i - 1] in Syntax.IdentifierChars
      invariant 0 <= i <= k0
      invariant TrailingRun(s[..i], Syntax.IdentifierChars) + (k0 - i) == TrailingRun(s[..k0], Syntax.IdentifierChars)
    {
      TrailingRunStep(s, i, Syntax.IdentifierChars);
      i := i - 1;
    }
    TrailingRunStops(s, i, Syntax.IdentifierChars);
    SplitPointIs(s, k0, i);
    preIdentifier := SkipLeading(s[..i]);
    identifier := s[i..];
  }

  /** A prefix ending in a character of `chars` has a run one longer than the prefix before that character. */
  lemma TrailingRunStep(s: string, i: nat, chars: set<char>)
    requires 0 < i <= |s| && s[i - 1] in chars
    ensures TrailingRun(s[..i], chars) == 1 + TrailingRun(s[..i - 1], chars)
  {
    assert s[..i][..i - 1] == s[..i - 1];
  }

  /** A prefix not ending in a character of `chars` has no run. */
  lemma TrailingRunStops(s: string, i: nat, chars: set<char>)
    requires i <= |s| && !(i > 0 && s[i - 1] in chars)
    ensures TrailingRun(s[..i], chars) == 0
  {
  }

  /** The cut is the start of the trailing whitespace less the identifier run before it. */
  lemma SplitPointIs(s: string, k0: nat, k: nat)
    requires k0 == |s| - TrailingRun(s, Syntax.WhitespaceChars)
    requires k0 <= |s| && k == k0 - TrailingRun(s[..k0], Syntax.IdentifierChars)
    ensures SplitPoint(s) == k
  {
    var runs := TrailingRun(s[..k0], Syntax.IdentifierChars);
    assert SplitPoint(s) == k0 - runs;
  }

  //////////////////////////////////////////////////  parse_implicit_statement

  /** The tags `parse_implicit_statement` puts first in its answer. */
  const AssignTag := "[ASSIGN]"
  const BindTag := "[BIND]"
  const ExpressionStatementTag := "[EXPRESSION-STATEMENT]"
  const FunctionDefinitionTag := "[FUNCTION-DEFINITION]"

  /** An answer of one of the four shapes: a tag followed by one, one, two or three strings. */
  predicate WellFormedShape(shape: seq<string>) {
    (|shape| == 2 && (shape[0] == ExpressionStatementTag || shape[0] == FunctionDefinitionTag)) ||
    (|shape| == 3 && shape[0] == AssignTag) ||
    (|shape| == 4 && shape[0] == BindTag)
  }

  /**
   * The statement's text: from the first non-whitespace character up to the
   * first `;` or `{` outside every bracket, with the `;` kept and the `{`
   * left out.
   */
  function StatementText(s: string): (r: string)
    ensures |r| <= |s|
  {
    var pos := ReadUntilToplevel(SkipLeading(s), {';', '{'});
    if pos.1 != [] && pos.1[0] == ';' then pos.0 + ";" else pos.0
  }

  /**
   * The statement text without a top-level `=`: the text, read backwards,
   * must end in `)` after an optional `;`; the bracket group that `)`
   * closes is cut off, and whatever stands before the name in front of it
   * decides between a function definition and an expression statement.
   */
  function ClassifyCall(s2: string): (res: Result<seq<string>>)
    ensures res.Success? ==> WellFormedShape(res.value) && |res.value| == 2
    ensures res.Success? && res.value[0] == FunctionDefinitionTag ==> res.value[1] == Trim(s2)
  {
    var rev2 := CallTextReversed(s2);
    if rev2 == [] || rev2[0] != ')' then Failure("syntax error")
    else
      match BalancedLength(rev2, 0)
      case None => Failure("unbalanced brackets")
      case Some(count) => CallShapeAt(s2, s2[..|rev2| - count])
  }

  /**
   * The text cut before the bracket group at its end: when nothing stands
   * before the callee's name it is an expression statement, which must end
   * in `;`, and otherwise a function definition.
   */
  function CallShapeAt(s2: string, preParentheses: string): (res: Result<seq<string>>)
    ensures res.Success? ==> WellFormedShape(res.value) && |res.value| == 2
    ensures res.Success? && res.value[0] == FunctionDefinitionTag ==> res.value[1] == Trim(s2)
  {
    var preIdentifier := Trim(TailIdentifierSplit(preParentheses).0);
    if preIdentifier == [] then
      var s3 := Trim(s2);
      if s3 == [] || s3[|s3| - 1] != ';' then Failure("syntax error")
      else Success([ExpressionStatementTag, Trim(s3[..|s3| - 1])])
    else Success([FunctionDefinitionTag, Trim(s2)])
  }

  /** The text reversed, without the whitespace and the one `;` it ends with. */
  function CallTextReversed(s2: string): (r: string)
    ensures |r| <= |s2|
  {
    var rev1 := SkipLeading(Reverse(s2));
    SkipLeading(if rev1 != [] && rev1[0] == ';' then rev1[1..] else rev1)
  }

  /**
   * The statement text split at its first top-level `=`: the right-hand
   * side must end in `;`, which is dropped; the name before the `=` is the
   * identifier and anything before that name is the type.
   */
  function ClassifyAssignment(lhs: string, afterEquals: string): (res: Result<seq<string>>)
    ensures res.Success? <==> afterEquals != [] && afterEquals[|afterEquals| - 1] == ';'
    ensures res.Success? ==> WellFormedShape(res.value) && (res.value[0] == AssignTag || res.value[0] == BindTag)
  {
    var rhs1 := SkipLeading(afterEquals);
    assert rhs1 != [] ==> rhs1[|rhs1| - 1] == afterEquals[|afterEquals| - 1];
    if rhs1 == [] || rhs1[|rhs1| - 1] != ';' then Failure("syntax error")
    else Success(AssignmentShape(lhs, Trim(rhs1[..|rhs1| - 1])))
  }

  /** An assignment without a type, or a binding with the type that stands before the name. */
  function AssignmentShape(lhs: string, rhs: string): (shape: seq<string>)
    ensures WellFormedShape(shape) && (shape[0] == AssignTag || shape[0] == BindTag)
  {
    var split := TailIdentifierSplit(lhs);
    var preIdentifier := Trim(split.0);
    if preIdentifier == [] then [AssignTag, Trim(split.1), rhs]
    else [BindTag, preIdentifier, Trim(split.1), rhs]
  }

  /** The classification of a statement's text by whether it holds a `=` outside every bracket. */
  function Classify(r: string): (res: Result<seq<string>>)
    ensures res.Success? ==> WellFormedShape(res.value)
    ensures res.Success? ==> (res.value[0] == AssignTag || res.value[0] == BindTag <==> ReadUntilToplevel(r, {'='}).0 != [])
  {
    var eq := ReadUntilToplevel(r, {'='});
    if eq.0 == [] then ClassifyCall(eq.1) else ClassifyAssignment(eq.0, eq.1[1..])
  }

  /** `parse_implicit_statement`: the statement's shape, with the input position returned unchanged. */
  function ParseImplicitStatement(s: string): (res: Result<(seq<string>, string)>)
    ensures res.Success? ==> res.value.1 == s && WellFormedShape(res.value.0)
    ensures res.Failure? <==> Classify(StatementText(s)).Failure?
  {
    var shape :- Classify(StatementText(s));
    Success((shape, s))
  }

  /** With a top-level `=` after some text, the statement is accepted exactly when it ends in `;`. */
  lemma AssignmentNeedsSemicolon(r: string)
    requires ReadUntilToplevel(r, {'='}).0 != []
    ensures Classify(r).Success? <==> r[|r| - 1] == ';'
  {
    var eq := ReadUntilToplevel(r, {'='});
    assert eq.1[1..] == r[|eq.0| + 1..];
  }

  //////////////////////////////////////////////////  Facts about the text helpers

  /** Text holding no bracket. */
  predicate Flat(p: string) {
    forall i :: 0 <= i < |p| ==> Delta(p[i]) == 0
  }

  /** A name: one or more identifier characters. */
  predicate IsName(x: string) {
    x != [] && forall i :: 0 <= i < |x| ==> x[i] in Syntax.IdentifierChars
  }

  /** A position found in a later part of the text, counted from the start of the whole. */
  function Shift(o: Option<nat>, n: nat): (r: Option<nat>)
    ensures r.Some? <==> o.Some?
    ensures r.Some? ==> r.value == o.value + n
  {
    match o
    case None => None
    case Some(k) => Some(k + n)
  }

  /** The search runs through the first part and, finding nothing there, goes on in the second at the depth the first leaves. */
  lemma {:induction false} FindAppend(p: string, q: string, stops: set<char>, depth: int)
    ensures FindTopLevel(p + q, stops, depth) ==
            if FindTopLevel(p, stops, depth).Some? then FindTopLevel(p, stops, depth)
            else Shift(FindTopLevel(q, stops, depth + Net(p)), |p|)
    decreases |p|
  {
    if p == [] {
      assert p + q == q;
    } else {
      assert (p + q)[0] == p[0];
      assert (p + q)[1..] == p[1..] + q;
      FindAppend(p[1..], q, stops, depth + Delta(p[0]));
    }
  }

  /** The depth change of a concatenation is the sum of the parts'. */
  lemma {:induction false} NetAppend(p: string, q: string)
    ensures Net(p + q) == Net(p) + Net(q)
    decreases |p|
  {
    if p == [] {
      assert p + q == q;
    } else {
      assert (p + q)[1..] == p[1..] + q;
      NetAppend(p[1..], q);
    }
  }

  /** Text without brackets changes no depth, and inside a bracket, or holding no stop character, it has nothing to find. */
  lemma {:induction false} FindInFlat(p: string, stops: set<char>, depth: int)
    requires Flat(p)
    requires depth != 0 || forall i :: 0 <= i < |p| ==> p[i] !in stops
    ensures Net(p) == 0
    ensures FindTopLevel(p, stops, depth) == None
    decreases |p|
  {
    if p != [] {
      FindInFlat(p[1..], stops, depth);
    }
  }

  /** Names and whitespace hold no bracket and no `=`, `;` or `{`. */
  lemma NameAndSpaceAreFlat(p: string)
    requires forall i :: 0 <= i < |p| ==> p[i] in Syntax.IdentifierChars || p[i] in Syntax.WhitespaceChars
    ensures Flat(p)
    ensures forall i :: 0 <= i < |p| ==> p[i] != '=' && p[i] != ';' && p[i] != '{'
  {
  }

  /** Reading up to a stop character outside every bracket. */
  lemma ReadStopsAt(p: string, c: char, q: string, stops: set<char>)
    requires p != [] && FindTopLevel(p, stops, 0) == None && Net(p) == 0 && c in stops
    ensures ReadUntilToplevel(p + [c] + q, stops) == (p, [c] + q)
  {
    FindAppend(p, [c] + q, stops, 0);
    assert p + [c] + q == p + ([c] + q);
    assert (p + [c] + q)[..|p|] == p;
    assert (p + [c] + q)[|p|..] == [c] + q;
  }

  /** Leading whitespace before text that does not start with whitespace is exactly what is skipped. */
  lemma {:induction false} SkipLeadingOver(w: string, t: string)
    requires AllWhitespace(w)
    requires t == [] || t[0] !in Syntax.WhitespaceChars
    ensures SkipLeading(w + t) == t
    decreases |w|
  {
    if w == [] {
      assert w + t == t;
    } else {
      assert (w + t)[1..] == w[1..] + t;
      SkipLeadingOver(w[1..], t);
    }
  }

  /** Trailing whitespace after text that does not end with whitespace is exactly what is skipped. */
  lemma {:induction false} SkipTrailingOver(t: string, w: string)
    requires AllWhitespace(w)
    requires t == [] || t[|t| - 1] !in Syntax.WhitespaceChars
    ensures SkipTrailing(t + w) == t
    decreases |w|
  {
    if w == [] {
      assert t + w == t;
    } else {
      var w' := w[..|w| - 1];
      assert (t + w)[..|t + w| - 1] == t + w';
      SkipTrailingOver(t, w');
    }
  }

  /** Trimming text with whitespace only around it gives the text. */
  lemma TrimOver(w1: string, t: string, w2: string)
    requires AllWhitespace(w1) && AllWhitespace(w2)
    requires t != [] && t[0] !in Syntax.WhitespaceChars && t[|t| - 1] !in Syntax.WhitespaceChars
    ensures Trim(w1 + t + w2) == t
  {
    assert w1 + t + w2 == w1 + (t + w2);
    SkipLeadingOver(w1, t + w2);
    SkipTrailingOver(t, w2);
  }

  /** Text that neither starts nor ends with whitespace is its own trimming. */
  lemma TrimUnchanged(t: string)
    requires t != [] && t[0] !in Syntax.WhitespaceChars && t[|t| - 1] !in Syntax.WhitespaceChars
    ensures Trim(t) == t
  {
  }

  /** Trimming text followed by whitespace gives the text. */
  lemma TrimTrailing(t: string, w: string)
    requires AllWhitespace(w)
    requires t != [] && t[0] !in Syntax.WhitespaceChars && t[|t| - 1] !in Syntax.WhitespaceChars
    ensures Trim(t + w) == t
  {
    SkipTrailingOver(t, w);
    assert (t + w)[0] == t[0];
  }

  /** Reversing a concatenation reverses and swaps the parts. */
  lemma ReverseAppend(a: string, b: string)
    ensures Reverse(a + b) == Reverse(b) + Reverse(a)
  {
    ReverseAt(a + b);
    ReverseAt(a);
    ReverseAt(b);
    var r := Reverse(a + b);
    assert forall i :: 0 <= i < |b| ==> r[i] == Reverse(b)[i];
    assert forall i :: |b| <= i < |r| ==> r[i] == Reverse(a)[i - |b|];
  }

  /** Reversing text whose trailing whitespace is skipped is skipping the leading whitespace of the reversed text. */
  lemma ReverseSkipTrailing(s: string)
    ensures SkipLeading(Reverse(s)) == Reverse(SkipTrailing(s))
  {
    var t := SkipTrailing(s);
    assert s == t + s[|t|..];
    ReverseAppend(t, s[|t|..]);
    ReverseAt(s[|t|..]);
    ReverseAt(t);
    SkipLeadingOver(Reverse(s[|t|..]), Reverse(t));
  }

  /** Reversing text without its last character drops the first character of the reversed text. */
  lemma ReverseDropLast(t: string)
    requires t != []
    ensures Reverse(t[..|t| - 1]) == Reverse(t)[1..]
    ensures Reverse(t)[0] == t[|t| - 1]
  {
    var a := t[..|t| - 1];
    var c := [t[|t| - 1]];
    assert t == a + c;
    ReverseAppend(a, c);
    assert Reverse(c) == c;
  }

  /** A run of exactly `n` characters of `chars` at the end is the trailing run. */
  lemma TrailingRunIs(s: string, chars: set<char>, n: nat)
    requires n <= |s|
    requires forall i :: |s| - n <= i < |s| ==> s[i] in chars
    requires n == |s| || s[|s| - n - 1] !in chars
    ensures TrailingRun(s, chars) == n
  {
  }

  /** A name followed by whitespace after text that cannot extend the name is cut right before the name. */
  lemma SplitPointOf(pre: string, x: string, w: string)
    requires pre == [] || pre[|pre| - 1] !in Syntax.IdentifierChars
    requires IsName(x) && AllWhitespace(w)
    ensures SplitPoint(pre + x + w) == |pre|
  {
    var s := pre + x + w;
    assert s[..|pre + x|] == pre + x;
    TrailingSpaceAfterName(pre + x, w);
    TrailingName(pre, x);
    SplitPointIs(s, |pre + x|, |pre|);
  }

  /** Text cut after its first part splits into that part, without its leading whitespace, and the rest. */
  lemma TailIdentifierSplitAt(a: string, b: string)
    requires SplitPoint(a + b) == |a|
    ensures TailIdentifierSplit(a + b).0 == SkipLeading(a)
    ensures TailIdentifierSplit(a + b).1 == b
  {
    assert (a + b)[..|a|] == a;
    assert (a + b)[|a|..] == b;
  }

  /** The whitespace after text ending in an identifier character is the trailing whitespace run. */
  lemma TrailingSpaceAfterName(t: string, w: string)
    requires t != [] && t[|t| - 1] in Syntax.IdentifierChars && AllWhitespace(w)
    ensures TrailingRun(t + w, Syntax.WhitespaceChars) == |w|
  {
    WhitespaceIsNoIdentifierChar();
    var s := t + w;
    assert forall i :: |t| <= i < |s| ==> s[i] == w[i - |t|];
    assert s[|t| - 1] == t[|t| - 1];
    TrailingRunIs(s, Syntax.WhitespaceChars, |w|);
  }

  /** A name after text that cannot extend it is the trailing identifier run. */
  lemma TrailingName(pre: string, x: string)
    requires pre == [] || pre[|pre| - 1] !in Syntax.IdentifierChars
    requires IsName(x)
    ensures TrailingRun(pre + x, Syntax.IdentifierChars) == |x|
  {
    var s := pre + x;
    assert forall i :: |pre| <= i < |s| ==> s[i] == x[i - |pre|];
    assert pre != [] ==> s[|pre| - 1] == pre[|pre| - 1];
    TrailingRunIs(s, Syntax.IdentifierChars, |x|);
  }
}
