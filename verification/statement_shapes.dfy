/**
 * The statement shapes the classifier of the prototype parser recognises:
 * for each, a family of statement texts built from names, whitespace,
 * types and flat argument lists, and the answer the classifier gives for
 * every member of the family.
 */
module StatementShapes {
  import opened Wrappers
  import Syntax = FloydSyntax
  import opened PrefixlessStatement

  /** Inside a group opened at depth one, text without brackets runs up to the `(` that closes the group. */
  lemma {:induction false} BalancedCloses(s: string, n: nat)
    requires n < |s| && s[n] == '('
    requires forall i :: 0 <= i < n ==> BackwardDelta(s[i]) == 0
    ensures BalancedLength(s, 1) == Some(n + 1)
    decreases n
  {
    if n > 0 {
      BalancedCloses(s[1..], n - 1);
    }
  }

  /** Read backwards, a call's bracket group is its `)`, its arguments and its `(`. */
  lemma BalancedCall(pre: string, args: string)
    requires Flat(args)
    ensures BalancedLength(Reverse(pre + "(" + args + ")"), 0) == Some(|args| + 2)
  {
    var call := pre + "(" + args + ")";
    var rev := Reverse(call);
    ReverseAt(call);
    assert rev[0] == ')';
    assert forall i :: 0 <= i < |args| ==> rev[1..][i] == args[|args| - 1 - i];
    assert rev[1..][|args|] == '(';
    BalancedCloses(rev[1..], |args|);
  }

  /** The text before the whitespace, the one `;` and the whitespace it ends with. */
  function CallEnd(s2: string): (r: string)
    ensures |r| <= |s2|
  {
    var t := SkipTrailing(s2);
    SkipTrailing(if t != [] && t[|t| - 1] == ';' then t[..|t| - 1] else t)
  }

  /** Reading the text backwards skips exactly what `CallEnd` leaves out at its end. */
  lemma CallTextReversedIs(s2: string)
    ensures CallTextReversed(s2) == Reverse(CallEnd(s2))
  {
    var t := SkipTrailing(s2);
    ReverseSkipTrailing(s2);
    if t != [] {
      ReverseDropLast(t);
      if t[|t| - 1] == ';' {
        ReverseSkipTrailing(t[..|t| - 1]);
      } else {
        ReverseSkipTrailing(t);
      }
    }
  }

  /** A call followed by whitespace and an optional `;` ends with the call itself. */
  lemma CallEndOf(call: string, w: string, semi: bool)
    requires call != [] && call[|call| - 1] !in Syntax.WhitespaceChars && call[|call| - 1] != ';' && AllWhitespace(w)
    ensures CallEnd(call + w + (if semi then ";" else "")) == call
  {
    if semi {
      var r := call + w + ";";
      SkipTrailingOver(r, []);
      assert r + [] == r;
      assert r[..|r| - 1] == call + w;
    } else {
      assert call + w + "" == call + w;
    }
    SkipTrailingOver(call, w);
  }

  /** A call `pre(args)` followed by whitespace and an optional `;` is cut right before its `(`. */
  lemma CallCutAt(pre: string, args: string, w: string, semi: bool)
    requires Flat(args) && AllWhitespace(w)
    ensures var r := pre + "(" + args + ")" + w + (if semi then ";" else "");
            ClassifyCall(r) == CallShapeAt(r, pre)
  {
    var call := pre + "(" + args + ")";
    var r := call + w + (if semi then ";" else "");
    assert r[..|pre|] == pre;
    BracketsAreNoWhitespace();
    CallEndOf(call, w, semi);
    CallTextReversedIs(r);
    ReverseAt(call);
    BalancedCall(pre, args);
  }

  /** With nothing before the callee's name, a call followed by `;` is an expression statement. */
  lemma ExpressionCallShape(call: string, pre: string, w: string)
    requires call != [] && call[0] !in Syntax.WhitespaceChars && call[|call| - 1] !in Syntax.WhitespaceChars
    requires Trim(TailIdentifierSplit(pre).0) == []
    requires AllWhitespace(w)
    ensures CallShapeAt(call + w + ";", pre) == Success([ExpressionStatementTag, call])
  {
    var r := call + w + ";";
    BracketsAreNoWhitespace();
    assert r[0] == call[0] && r[|r| - 1] == ';';
    assert r[..|r| - 1] == call + w;
    TrimUnchanged(r);
    TrimTrailing(call, w);
    ExpressionShapeAt(r, pre, call);
  }

  /** The expression-statement branch of the call shape, given what trimming yields. */
  lemma ExpressionShapeAt(s2: string, pre: string, c: string)
    requires Trim(TailIdentifierSplit(pre).0) == []
    requires Trim(s2) == s2 && s2 != [] && s2[|s2| - 1] == ';' && Trim(s2[..|s2| - 1]) == c
    ensures CallShapeAt(s2, pre) == Success([ExpressionStatementTag, c])
  {
  }

  /** With text before the callee's name, a call followed by whitespace is a function definition. */
  lemma DefinitionCallShape(call: string, pre: string, w: string)
    requires call != [] && call[0] !in Syntax.WhitespaceChars && call[|call| - 1] !in Syntax.WhitespaceChars
    requires Trim(TailIdentifierSplit(pre).0) != []
    requires AllWhitespace(w)
    ensures CallShapeAt(call + w, pre) == Success([FunctionDefinitionTag, call])
  {
    TrimTrailing(call, w);
  }

  /** The search finds nothing in a concatenation when it finds nothing in either part. */
  lemma FindNoneAppend(p: string, q: string, stops: set<char>, depth: int)
    requires FindTopLevel(p, stops, depth) == None
    requires FindTopLevel(q, stops, depth + Net(p)) == None
    ensures FindTopLevel(p + q, stops, depth) == None
  {
    FindAppend(p, q, stops, depth);
  }

  /** The search finds nothing after a character that is not a stop at depth zero when it finds nothing after it. */
  lemma FindNoneStep(c: char, q: string, stops: set<char>, depth: int)
    requires depth != 0 || c !in stops
    requires FindTopLevel(q, stops, depth + Delta(c)) == None
    ensures FindTopLevel([c] + q, stops, depth) == None
  {
    assert ([c] + q)[0] == c;
    assert ([c] + q)[1..] == q;
  }

  /** A statement text with no `=` outside brackets: a call, whose arguments may hold `=`, and flat text after it. */
  lemma NoTopLevelEquals(pre: string, args: string, tail: string)
    requires FindTopLevel(pre, {'='}, 0) == None && Net(pre) == 0
    requires Flat(args) && Flat(tail) && forall i :: 0 <= i < |tail| ==> tail[i] != '='
    ensures ReadUntilToplevel(pre + "(" + args + ")" + tail, {'='}).0 == []
  {
    var t1 := ['('] + (args + ([')'] + tail));
    assert pre + "(" + args + ")" + tail == pre + t1;
    GroupHasNoStop(args, tail, {'='});
    FindNoneAppend(pre, t1, {'='}, 0);
  }

  /** A bracket group without inner brackets, followed by flat text without stops, holds no stop outside brackets. */
  lemma GroupHasNoStop(args: string, tail: string, stops: set<char>)
    requires '(' !in stops
    requires Flat(args) && Flat(tail) && forall i :: 0 <= i < |tail| ==> tail[i] !in stops
    ensures FindTopLevel(['('] + (args + ([')'] + tail)), stops, 0) == None
  {
    var t3 := [')'] + tail;
    var t2 := args + t3;
    FindInFlat(args, stops, 1);
    FindInFlat(tail, stops, 0);
    FindNoneStep(')', tail, stops, 1);
    FindNoneAppend(args, t3, stops, 1);
    FindNoneStep('(', t2, stops, 0);
  }

  /** Names, whitespace and types made of them hold no stop of the statement scan outside brackets. */
  predicate ScanStops(stops: set<char>) {
    forall c :: c in stops ==> c == '=' || c == ';' || c == '{'
  }

  /** A name between whitespace holds nothing to find and changes no depth. */
  lemma NameIsFlat(p: string, stops: set<char>)
    requires forall i :: 0 <= i < |p| ==> p[i] in Syntax.IdentifierChars || p[i] in Syntax.WhitespaceChars
    requires ScanStops(stops)
    ensures FindTopLevel(p, stops, 0) == None && Net(p) == 0
  {
    NameAndSpaceAreFlat(p);
    FindInFlat(p, stops, 0);
  }

  /** A type, whitespace, a name and whitespace hold a stop outside brackets only when the type does. */
  lemma TypedNameIsFlat(ty: string, w: string, f: string, w1: string, stops: set<char>)
    requires FindTopLevel(ty, stops, 0) == None && Net(ty) == 0
    requires AllWhitespace(w) && IsName(f) && AllWhitespace(w1) && ScanStops(stops)
    ensures FindTopLevel(ty + w + f + w1, stops, 0) == None && Net(ty + w + f + w1) == 0
  {
    var rest := w + f + w1;
    assert ty + w + f + w1 == ty + rest;
    NameIsFlat(rest, stops);
    FindNoneAppend(ty, rest, stops, 0);
    NetAppend(ty, rest);
  }

  /** A name followed by whitespace has nothing before the name. */
  lemma NameSplit(f: string, w1: string)
    requires IsName(f) && AllWhitespace(w1)
    ensures Trim(TailIdentifierSplit(f + w1).0) == []
    ensures Trim(TailIdentifierSplit(f + w1).1) == f
  {
    var empty: string := [];
    WhitespaceIsNoIdentifierChar();
    assert f + w1 == empty + f + w1;
    assert empty + (f + w1) == f + w1;
    SplitPointOf(empty, f, w1);
    TailIdentifierSplitAt(empty, f + w1);
    assert empty + f + w1 == f + w1;
    TrimOver(empty, f, w1);
  }

  /** A type, whitespace, a name and whitespace: the type stands before the name. */
  lemma TypedNameSplit(ty: string, w: string, f: string, w1: string)
    requires ty != [] && ty[0] !in Syntax.WhitespaceChars && ty[|ty| - 1] !in Syntax.WhitespaceChars
    requires w != [] && AllWhitespace(w) && IsName(f) && AllWhitespace(w1)
    ensures Trim(TailIdentifierSplit(ty + w + f + w1).0) == ty
    ensures Trim(TailIdentifierSplit(ty + w + f + w1).1) == f
  {
    var empty: string := [];
    var pre := ty + w;
    WhitespaceIsNoIdentifierChar();
    assert pre[|pre| - 1] == w[|w| - 1];
    assert ty + w + f + w1 == pre + (f + w1);
    assert pre + f + w1 == pre + (f + w1);
    assert empty + pre == pre;
    assert empty + ty + w == pre;
    assert empty + f + w1 == f + w1;
    SplitPointOf(pre, f, w1);
    TailIdentifierSplitAt(pre, f + w1);
    SkipLeadingOver(empty, pre);
    TrimOver(empty, ty, w);
    TrimOver(empty, f, w1);
  }

  /** A statement text with no `=` outside brackets is classified as a call. */
  lemma ClassifyWithoutEquals(r: string)
    requires ReadUntilToplevel(r, {'='}).0 == []
    ensures Classify(r) == ClassifyCall(r)
  {
  }

  /** A call followed by flat text without `=` is classified as a call. */
  lemma CallWithoutEquals(pre: string, args: string, tail: string)
    requires FindTopLevel(pre, {'='}, 0) == None && Net(pre) == 0
    requires Flat(args) && Flat(tail) && forall i :: 0 <= i < |tail| ==> tail[i] != '='
    ensures Classify(pre + "(" + args + ")" + tail) == ClassifyCall(pre + "(" + args + ")" + tail)
  {
    NoTopLevelEquals(pre, args, tail);
    ClassifyWithoutEquals(pre + "(" + args + ")" + tail);
  }

  /** A call followed by whitespace is cut right before its `(`. */
  lemma CallCutPlain(pre: string, args: string, w: string)
    requires Flat(args) && AllWhitespace(w)
    ensures ClassifyCall(pre + "(" + args + ")" + w) == CallShapeAt(pre + "(" + args + ")" + w, pre)
  {
    CallCutAt(pre, args, w, false);
    assert pre + "(" + args + ")" + w + "" == pre + "(" + args + ")" + w;
  }

  /** A call followed by whitespace and `;` is cut right before its `(`. */
  lemma CallCutSemicolon(pre: string, args: string, w: string)
    requires Flat(args) && AllWhitespace(w)
    ensures ClassifyCall(pre + "(" + args + ")" + w + ";") == CallShapeAt(pre + "(" + args + ")" + w + ";", pre)
  {
    CallCutAt(pre, args, w, true);
  }

  /** With nothing before the callee's name, a call followed by `;` is classified as an expression statement. */
  lemma ExpressionCallClassified(call: string, pre: string, w: string)
    requires call != [] && call[0] !in Syntax.WhitespaceChars && call[|call| - 1] == ')'
    requires Trim(TailIdentifierSplit(pre).0) == []
    requires AllWhitespace(w)
    requires ClassifyCall(call + w + ";") == CallShapeAt(call + w + ";", pre)
    ensures ClassifyCall(call + w + ";") == Success([ExpressionStatementTag, call])
  {
    BracketsAreNoWhitespace();
    ExpressionCallShape(call, pre, w);
  }

  /** With text before the callee's name, a call followed by whitespace is classified as a function definition. */
  lemma DefinitionCallClassified(call: string, pre: string, w: string)
    requires call != [] && call[0] !in Syntax.WhitespaceChars && call[|call| - 1] == ')'
    requires Trim(TailIdentifierSplit(pre).0) != []
    requires AllWhitespace(w)
    requires ClassifyCall(call + w) == CallShapeAt(call + w, pre)
    ensures ClassifyCall(call + w) == Success([FunctionDefinitionTag, call])
  {
    BracketsAreNoWhitespace();
    DefinitionCallShape(call, pre, w);
  }

  /** A call starts where the text before its `(` starts and ends with `)`. */
  lemma CallEnds(pre: string, args: string)
    requires pre != []
    ensures var call := pre + "(" + args + ")";
            call != [] && call[0] == pre[0] && call[|call| - 1] == ')'
  {
  }

  /** A call with nothing before the callee's name, followed by `;`, is an expression statement. */
  lemma ExpressionStatementCall(pre: string, args: string, w: string)
    requires pre != [] && pre[0] !in Syntax.WhitespaceChars
    requires Trim(TailIdentifierSplit(pre).0) == []
    requires Flat(args) && AllWhitespace(w)
    ensures ClassifyCall(pre + "(" + args + ")" + w + ";") == Success([ExpressionStatementTag, pre + "(" + args + ")"])
  {
    var call := pre + "(" + args + ")";
    CallEnds(pre, args);
    CallCutSemicolon(pre, args, w);
    ExpressionCallClassified(call, pre, w);
  }

  /** A call with text before the callee's name, followed by whitespace, is a function definition. */
  lemma DefinitionStatementCall(pre: string, args: string, w: string)
    requires pre != [] && pre[0] !in Syntax.WhitespaceChars
    requires Trim(TailIdentifierSplit(pre).0) != []
    requires Flat(args) && AllWhitespace(w)
    ensures ClassifyCall(pre + "(" + args + ")" + w) == Success([FunctionDefinitionTag, pre + "(" + args + ")"])
  {
    var call := pre + "(" + args + ")";
    CallEnds(pre, args);
    CallCutPlain(pre, args, w);
    DefinitionCallClassified(call, pre, w);
  }

  /** Classifying as a call, then the call's shape. */
  lemma ClassifiedAs(r: string, shape: Result<seq<string>>)
    requires Classify(r) == ClassifyCall(r) && ClassifyCall(r) == shape
    ensures Classify(r) == shape
  {
  }

  /** `f(args);` with a name `f` is an expression statement. */
  lemma ExpressionStatementForm(f: string, w1: string, args: string, w2: string)
    requires IsName(f) && AllWhitespace(w1) && AllWhitespace(w2) && Flat(args)
    ensures Classify(f + w1 + "(" + args + ")" + w2 + ";") == Success([ExpressionStatementTag, f + w1 + "(" + args + ")"])
  {
    var pre := f + w1;
    var tail := w2 + ";";
    assert f + w1 + "(" + args + ")" + w2 + ";" == pre + "(" + args + ")" + tail;
    assert pre[0] == f[0];
    WhitespaceIsNoIdentifierChar();
    NameAndSpaceAreFlat(w2);
    assert Flat(tail) && forall i :: 0 <= i < |tail| ==> tail[i] != '=';
    NameIsFlat(pre, {'='});
    CallWithoutEquals(pre, args, tail);
    NameSplit(f, w1);
    ExpressionStatementCall(pre, args, w2);
    assert pre + "(" + args + ")" + tail == pre + "(" + args + ")" + w2 + ";";
    ClassifiedAs(pre + "(" + args + ")" + tail, Success([ExpressionStatementTag, pre + "(" + args + ")"]));
  }

  /** `ty f(args)` with a type `ty` before the name `f` is a function definition. */
  lemma FunctionDefinitionForm(ty: string, w: string, f: string, w1: string, args: string, w2: string)
    requires ty != [] && ty[0] !in Syntax.WhitespaceChars && ty[|ty| - 1] !in Syntax.WhitespaceChars
    requires FindTopLevel(ty, {'='}, 0) == None && Net(ty) == 0
    requires w != [] && AllWhitespace(w) && IsName(f) && AllWhitespace(w1) && AllWhitespace(w2) && Flat(args)
    ensures Classify(ty + w + f + w1 + "(" + args + ")" + w2) == Success([FunctionDefinitionTag, ty + w + f + w1 + "(" + args + ")"])
  {
    DefinitionIsCall(ty, w, f, w1, args, w2);
    TypedCallShape(ty, w, f, w1, args, w2);
  }

  /** A typed call holds no `=` outside brackets, so it is classified as a call. */
  lemma DefinitionIsCall(ty: string, w: string, f: string, w1: string, args: string, w2: string)
    requires FindTopLevel(ty, {'='}, 0) == None && Net(ty) == 0
    requires AllWhitespace(w) && IsName(f) && AllWhitespace(w1) && AllWhitespace(w2) && Flat(args)
    ensures var pre := ty + w + f + w1;
            Classify(pre + "(" + args + ")" + w2) == ClassifyCall(pre + "(" + args + ")" + w2)
  {
    NameAndSpaceAreFlat(w2);
    TypedNameIsFlat(ty, w, f, w1, {'='});
    CallWithoutEquals(ty + w + f + w1, args, w2);
  }

  /** A typed call, classified as a call: a function definition. */
  lemma TypedCallShape(ty: string, w: string, f: string, w1: string, args: string, w2: string)
    requires ty != [] && ty[0] !in Syntax.WhitespaceChars && ty[|ty| - 1] !in Syntax.WhitespaceChars
    requires w != [] && AllWhitespace(w) && IsName(f) && AllWhitespace(w1) && AllWhitespace(w2) && Flat(args)
    ensures var pre := ty + w + f + w1;
            ClassifyCall(pre + "(" + args + ")" + w2) == Success([FunctionDefinitionTag, pre + "(" + args + ")"])
  {
    var pre := ty + w + f + w1;
    FirstOfAppend(ty, w + f + w1);
    TypedNameSplit(ty, w, f, w1);
    DefinitionStatementCall(pre, args, w2);
  }

  /** The right-hand side of a `=`: whitespace, the expression, whitespace and `;`; the answer carries the bare expression. */
  lemma RhsShape(lhs: string, w2: string, e: string, w3: string)
    requires e != [] && e[0] !in Syntax.WhitespaceChars && e[|e| - 1] !in Syntax.WhitespaceChars
    requires AllWhitespace(w2) && AllWhitespace(w3)
    ensures ClassifyAssignment(lhs, w2 + e + w3 + ";") == Success(AssignmentShape(lhs, e))
  {
    var rhs1 := e + w3 + ";";
    assert w2 + e + w3 + ";" == w2 + rhs1;
    assert rhs1[0] == e[0];
    assert rhs1[..|rhs1| - 1] == e + w3;
    assert rhs1[|rhs1| - 1] == ';';
    SkipLeadingOver(w2, rhs1);
    TrimTrailing(e, w3);
    RhsOf(lhs, w2 + rhs1, rhs1, e);
  }

  /** The right-hand side after skipping its leading whitespace ends in `;`, and the rest of it trims to `e`. */
  lemma RhsOf(lhs: string, afterEquals: string, rhs1: string, e: string)
    requires SkipLeading(afterEquals) == rhs1 && rhs1 != [] && rhs1[|rhs1| - 1] == ';'
    requires Trim(rhs1[..|rhs1| - 1]) == e
    ensures ClassifyAssignment(lhs, afterEquals) == Success(AssignmentShape(lhs, e))
  {
  }

  /** A name before the `=`: an assignment. */
  lemma AssignmentShapeOfName(x: string, w: string, rhs: string)
    requires IsName(x) && AllWhitespace(w)
    ensures AssignmentShape(x + w, rhs) == [AssignTag, x, rhs]
  {
    NameSplit(x, w);
  }

  /** A type and a name before the `=`: a binding. */
  lemma AssignmentShapeOfTypedName(ty: string, w: string, x: string, w1: string, rhs: string)
    requires ty != [] && ty[0] !in Syntax.WhitespaceChars && ty[|ty| - 1] !in Syntax.WhitespaceChars
    requires w != [] && AllWhitespace(w) && IsName(x) && AllWhitespace(w1)
    ensures AssignmentShape(ty + w + x + w1, rhs) == [BindTag, ty, x, rhs]
  {
    TypedNameSplit(ty, w, x, w1);
  }

  /** A statement text with a `=` outside brackets after some text is classified as an assignment. */
  lemma ClassifyWithEquals(lhs: string, rest: string)
    requires lhs != [] && FindTopLevel(lhs, {'='}, 0) == None && Net(lhs) == 0
    ensures Classify(lhs + "=" + rest) == ClassifyAssignment(lhs, rest)
  {
    ReadStopsAt(lhs, '=', rest, {'='});
    assert lhs + "=" + rest == lhs + ['='] + rest;
    assert (['='] + rest)[1..] == rest;
  }

  /** Classifying as an assignment, then the right-hand side, then the left-hand side. */
  lemma AssignedAs(lhs: string, rest: string, e: string, shape: seq<string>)
    requires Classify(lhs + "=" + rest) == ClassifyAssignment(lhs, rest)
    requires ClassifyAssignment(lhs, rest) == Success(AssignmentShape(lhs, e))
    requires AssignmentShape(lhs, e) == shape
    ensures Classify(lhs + "=" + rest) == Success(shape)
  {
  }

  /** `x = e;` with a name `x`: an assignment of the expression `e` to `x`. */
  lemma AssignForm(x: string, w1: string, w2: string, e: string, w3: string)
    requires IsName(x) && AllWhitespace(w1) && AllWhitespace(w2) && AllWhitespace(w3)
    requires e != [] && e[0] !in Syntax.WhitespaceChars && e[|e| - 1] !in Syntax.WhitespaceChars
    ensures Classify(x + w1 + "=" + w2 + e + w3 + ";") == Success([AssignTag, x, e])
  {
    var lhs := x + w1;
    var rest := w2 + e + w3 + ";";
    assert x + w1 + "=" + w2 + e + w3 + ";" == lhs + "=" + rest;
    WhitespaceIsNoIdentifierChar();
    NameIsFlat(lhs, {'='});
    ClassifyWithEquals(lhs, rest);
    RhsShape(lhs, w2, e, w3);
    AssignmentShapeOfName(x, w1, e);
    AssignedAs(lhs, rest, e, [AssignTag, x, e]);
  }

  /** `ty x = e;` with a type `ty` before the name `x`: a binding of `x`, of type `ty`, to the expression `e`. */
  lemma BindForm(ty: string, w: string, x: string, w1: string, w2: string, e: string, w3: string)
    requires ty != [] && ty[0] !in Syntax.WhitespaceChars && ty[|ty| - 1] !in Syntax.WhitespaceChars
    requires FindTopLevel(ty, {'='}, 0) == None && Net(ty) == 0
    requires w != [] && AllWhitespace(w) && IsName(x) && AllWhitespace(w1) && AllWhitespace(w2) && AllWhitespace(w3)
    requires e != [] && e[0] !in Syntax.WhitespaceChars && e[|e| - 1] !in Syntax.WhitespaceChars
    ensures Classify((ty + w + x + w1) + "=" + (w2 + e + w3 + ";")) == Success([BindTag, ty, x, e])
  {
    BindIsAssignment(ty, w, x, w1, w2 + e + w3 + ";");
    BindAssignmentShape(ty, w, x, w1, w2, e, w3);
  }

  /** A type and a name, then `=`: classified by the text after the `=`. */
  lemma BindIsAssignment(ty: string, w: string, x: string, w1: string, rest: string)
    requires ty != [] && FindTopLevel(ty, {'='}, 0) == None && Net(ty) == 0
    requires AllWhitespace(w) && IsName(x) && AllWhitespace(w1)
    ensures Classify((ty + w + x + w1) + "=" + rest) == ClassifyAssignment(ty + w + x + w1, rest)
  {
    TypedNameIsFlat(ty, w, x, w1, {'='});
    ClassifyWithEquals(ty + w + x + w1, rest);
  }

  /** The text after the `=` of a type and a name: a binding. */
  lemma BindAssignmentShape(ty: string, w: string, x: string, w1: string, w2: string, e: string, w3: string)
    requires ty != [] && ty[0] !in Syntax.WhitespaceChars && ty[|ty| - 1] !in Syntax.WhitespaceChars
    requires w != [] && AllWhitespace(w) && IsName(x) && AllWhitespace(w1) && AllWhitespace(w2) && AllWhitespace(w3)
    requires e != [] && e[0] !in Syntax.WhitespaceChars && e[|e| - 1] !in Syntax.WhitespaceChars
    ensures ClassifyAssignment(ty + w + x + w1, w2 + e + w3 + ";") == Success([BindTag, ty, x, e])
  {
    RhsShape(ty + w + x + w1, w2, e, w3);
    AssignmentShapeOfTypedName(ty, w, x, w1, e);
  }

  /**
   * The statement text of input that starts with whitespace and holds a
   * `;` or `{` after a body without either outside brackets: the body with
   * the `;`, or the body alone before the `{`.
   */
  lemma StatementTextOf(lead: string, body: string, tail: string)
    requires AllWhitespace(lead) && body != [] && body[0] !in Syntax.WhitespaceChars
    requires FindTopLevel(body, {';', '{'}, 0) == None && Net(body) == 0
    ensures StatementText(lead + (body + ";" + tail)) == body + ";"
    ensures StatementText(lead + (body + "{" + tail)) == body
  {
    var stops: set<char> := {';', '{'};
    assert (body + ";" + tail)[0] == body[0];
    assert (body + "{" + tail)[0] == body[0];
    SkipLeadingOver(lead, body + ";" + tail);
    SkipLeadingOver(lead, body + "{" + tail);
    ReadStopsAt(body, ';', tail, stops);
    ReadStopsAt(body, '{', tail, stops);
    assert body + ";" + tail == body + [';'] + tail;
    assert body + "{" + tail == body + ['{'] + tail;
  }

  /** The statement text, and then its classification, give the answer. */
  lemma ParsedAs(s: string, text: string, text': string, shape: seq<string>)
    requires StatementText(s) == text && text == text' && Classify(text') == Success(shape)
    ensures ParseImplicitStatement(s) == Success((shape, s))
  {
  }

  /** An assignment's body holds no `;` or `{` outside brackets when neither its left-hand side nor its expression does. */
  lemma AssignBodyHasNoStop(lhs: string, w2: string, e: string, w3: string)
    requires FindTopLevel(lhs, {';', '{'}, 0) == None && Net(lhs) == 0
    requires AllWhitespace(w2) && AllWhitespace(w3)
    requires FindTopLevel(e, {';', '{'}, 0) == None && Net(e) == 0
    ensures FindTopLevel(lhs + "=" + w2 + e + w3, {';', '{'}, 0) == None && Net(lhs + "=" + w2 + e + w3) == 0
  {
    var stops: set<char> := {';', '{'};
    var eq := "=" + w2;
    NameAndSpaceAreFlat(w2);
    assert forall i :: 0 <= i < |eq| ==> eq[i] == '=' || eq[i] in Syntax.WhitespaceChars;
    FindInFlat(eq, stops, 0);
    FindNoneAppend(lhs, eq, stops, 0);
    NetAppend(lhs, eq);
    var head := lhs + eq;
    assert lhs + "=" + w2 == head;
    FindNoneAppend(head, e, stops, 0);
    NetAppend(head, e);
    NameAndSpaceAreFlat(w3);
    FindInFlat(w3, stops, 0);
    FindNoneAppend(head + e, w3, stops, 0);
    NetAppend(head + e, w3);
  }

  /** The statement text of an assignment or binding `lhs = e;` after leading whitespace. */
  lemma AssignmentText(lead: string, lhs: string, w2: string, e: string, w3: string, tail: string)
    requires AllWhitespace(lead) && lhs != [] && lhs[0] !in Syntax.WhitespaceChars
    requires FindTopLevel(lhs, {';', '{'}, 0) == None && Net(lhs) == 0
    requires AllWhitespace(w2) && AllWhitespace(w3)
    requires FindTopLevel(e, {';', '{'}, 0) == None && Net(e) == 0
    ensures StatementText(lead + (lhs + "=" + w2 + e + w3 + ";" + tail)) == lhs + "=" + w2 + e + w3 + ";"
  {
    var body := lhs + "=" + w2 + e + w3;
    assert body[0] == lhs[0];
    AssignBodyHasNoStop(lhs, w2, e, w3);
    StatementTextOf(lead, body, tail);
  }

  /** `x = e;` after leading whitespace and before anything: an assignment, with the input position unchanged. */
  lemma AssignStatement(lead: string, x: string, w1: string, w2: string, e: string, w3: string, tail: string)
    requires AllWhitespace(lead) && IsName(x) && AllWhitespace(w1) && AllWhitespace(w2) && AllWhitespace(w3)
    requires e != [] && e[0] !in Syntax.WhitespaceChars && e[|e| - 1] !in Syntax.WhitespaceChars
    requires FindTopLevel(e, {';', '{'}, 0) == None && Net(e) == 0
    ensures var s := lead + (x + w1 + "=" + w2 + e + w3 + ";" + tail);
            ParseImplicitStatement(s) == Success(([AssignTag, x, e], s))
  {
    var text := x + w1 + "=" + w2 + e + w3 + ";";
    var s := lead + (x + w1 + "=" + w2 + e + w3 + ";" + tail);
    HeadOfName(x, w1);
    AssignmentText(lead, x + w1, w2, e, w3, tail);
    AssignForm(x, w1, w2, e, w3);
    ParsedAs(s, text, text, [AssignTag, x, e]);
  }

  /**
   * `ty x = e;` after leading whitespace and before anything: a binding, with
   * the input position unchanged. The type may be any text that is balanced
   * in brackets and holds no `=`, `;` or `{` outside them, such as
   * `mutable int` or `int ( string a )`.
   */
  lemma BindStatement(lead: string, ty: string, w: string, x: string, w1: string, w2: string, e: string, w3: string, tail: string)
    requires AllWhitespace(lead) && ty != [] && ty[0] !in Syntax.WhitespaceChars && ty[|ty| - 1] !in Syntax.WhitespaceChars
    requires FindTopLevel(ty, {'='}, 0) == None && FindTopLevel(ty, {';', '{'}, 0) == None && Net(ty) == 0
    requires w != [] && AllWhitespace(w) && IsName(x) && AllWhitespace(w1) && AllWhitespace(w2) && AllWhitespace(w3)
    requires e != [] && e[0] !in Syntax.WhitespaceChars && e[|e| - 1] !in Syntax.WhitespaceChars
    requires FindTopLevel(e, {';', '{'}, 0) == None && Net(e) == 0
    ensures var s := lead + ((ty + w + x + w1) + "=" + w2 + e + w3 + ";" + tail);
            ParseImplicitStatement(s) == Success(([BindTag, ty, x, e], s))
  {
    var lhs := ty + w + x + w1;
    var text := lhs + "=" + w2 + e + w3 + ";";
    var s := lead + (lhs + "=" + w2 + e + w3 + ";" + tail);
    HeadOfType(ty, w, x, w1);
    AssignmentText(lead, lhs, w2, e, w3, tail);
    BindForm(ty, w, x, w1, w2, e, w3);
    Regroup(lhs, w2, e, w3);
    ParsedAs(s, text, lhs + "=" + (w2 + e + w3 + ";"), [BindTag, ty, x, e]);
  }

  /** Regrouping the text after `=`. */
  lemma Regroup(lhs: string, w2: string, e: string, w3: string)
    ensures lhs + "=" + w2 + e + w3 + ";" == lhs + "=" + (w2 + e + w3 + ";")
  {
  }

  /** A call after text without `;` or `{` outside brackets, then whitespace, holds none either. */
  lemma CallBodyHasNoStop(pre: string, args: string, w2: string)
    requires FindTopLevel(pre, {';', '{'}, 0) == None && Net(pre) == 0
    requires Flat(args) && AllWhitespace(w2)
    ensures FindTopLevel(pre + "(" + args + ")" + w2, {';', '{'}, 0) == None
    ensures Net(pre + "(" + args + ")" + w2) == 0
  {
    var stops: set<char> := {';', '{'};
    var t1 := ['('] + (args + ([')'] + w2));
    assert pre + "(" + args + ")" + w2 == pre + t1;
    NameAndSpaceAreFlat(w2);
    FindInFlat(w2, stops, 0);
    FindInFlat(args, stops, 1);
    GroupHasNoStop(args, w2, stops);
    FindNoneAppend(pre, t1, stops, 0);
    GroupNet(pre, args, w2);
  }

  /** A bracket group between level text is level as a whole. */
  lemma GroupNet(pre: string, args: string, w2: string)
    requires Net(pre) == 0 && Net(args) == 0 && Net(w2) == 0
    ensures Net(pre + "(" + args + ")" + w2) == 0
  {
    var t3 := [')'] + w2;
    var t2 := args + t3;
    var t1 := ['('] + t2;
    assert pre + "(" + args + ")" + w2 == pre + t1;
    assert t3[1..] == w2;
    assert t1[1..] == t2;
    NetAppend(args, t3);
    NetAppend(pre, t1);
  }

  /** The statement text of a call statement `f(args);` or a definition head `ty f(args) {`. */
  lemma CallText(lead: string, pre: string, args: string, w2: string, tail: string)
    requires AllWhitespace(lead) && pre != [] && pre[0] !in Syntax.WhitespaceChars
    requires FindTopLevel(pre, {';', '{'}, 0) == None && Net(pre) == 0
    requires Flat(args) && AllWhitespace(w2)
    ensures StatementText(lead + (pre + "(" + args + ")" + w2 + ";" + tail)) == pre + "(" + args + ")" + w2 + ";"
    ensures StatementText(lead + (pre + "(" + args + ")" + w2 + "{" + tail)) == pre + "(" + args + ")" + w2
  {
    var body := pre + "(" + args + ")" + w2;
    assert body[0] == pre[0];
    CallBodyHasNoStop(pre, args, w2);
    StatementTextOf(lead, body, tail);
  }

  /** `f(args);` after leading whitespace and before anything: an expression statement, with the input position unchanged. */
  lemma ExpressionStatement(lead: string, f: string, w1: string, args: string, w2: string, tail: string)
    requires AllWhitespace(lead) && IsName(f) && AllWhitespace(w1) && AllWhitespace(w2) && Flat(args)
    ensures var s := lead + (f + w1 + "(" + args + ")" + w2 + ";" + tail);
            ParseImplicitStatement(s) == Success(([ExpressionStatementTag, f + w1 + "(" + args + ")"], s))
  {
    var pre := f + w1;
    var text := pre + "(" + args + ")" + w2 + ";";
    var s := lead + (pre + "(" + args + ")" + w2 + ";" + tail);
    assert pre[0] == f[0];
    HeadOfName(f, w1);
    CallText(lead, pre, args, w2, tail);
    ExpressionStatementForm(f, w1, args, w2);
    ParsedAs(s, text, text, [ExpressionStatementTag, pre + "(" + args + ")"]);
  }

  /**
   * `ty f(args) {` after leading whitespace: a function definition, with the
   * input position unchanged. The return type may be any text that is
   * balanced in brackets and holds no `=`, `;` or `{` outside them, such as
   * `int ( string a )`.
   */
  lemma FunctionDefinition(lead: string, ty: string, w: string, f: string, w1: string, args: string, w2: string, tail: string)
    requires AllWhitespace(lead) && ty != [] && ty[0] !in Syntax.WhitespaceChars && ty[|ty| - 1] !in Syntax.WhitespaceChars
    requires FindTopLevel(ty, {'='}, 0) == None && FindTopLevel(ty, {';', '{'}, 0) == None && Net(ty) == 0
    requires w != [] && AllWhitespace(w) && IsName(f) && AllWhitespace(w1) && AllWhitespace(w2) && Flat(args)
    ensures var s := lead + (ty + w + f + w1 + "(" + args + ")" + w2 + "{" + tail);
            ParseImplicitStatement(s) == Success(([FunctionDefinitionTag, ty + w + f + w1 + "(" + args + ")"], s))
  {
    var pre := ty + w + f + w1;
    var text := pre + "(" + args + ")" + w2;
    var s := lead + (pre + "(" + args + ")" + w2 + "{" + tail);
    HeadOfType(ty, w, f, w1);
    CallText(lead, pre, args, w2, tail);
    FunctionDefinitionForm(ty, w, f, w1, args, w2);
    ParsedAs(s, text, text, [FunctionDefinitionTag, pre + "(" + args + ")"]);
  }

  /** Text whose end, after whitespace and one `;`, is not `)` is no call: a syntax error. */
  lemma CallNeedsParenthesis(s2: string)
    requires CallEnd(s2) == [] || CallEnd(s2)[|CallEnd(s2)| - 1] != ')'
    ensures ClassifyCall(s2) == Failure("syntax error")
  {
    CallTextReversedIs(s2);
    ReverseAt(CallEnd(s2));
  }

  /** A bare name with no `=` and no call, such as `x;`, is a syntax error. */
  lemma NameStatementIsSyntaxError(lead: string, x: string, w: string, tail: string)
    requires AllWhitespace(lead) && IsName(x) && AllWhitespace(w)
    ensures ParseImplicitStatement(lead + (x + w + ";" + tail)) == Failure("syntax error")
  {
    var body := x + w;
    var r := body + ";";
    assert body[0] == x[0];
    assert forall i :: 0 <= i < |body| ==> body[i] in Syntax.IdentifierChars || body[i] in Syntax.WhitespaceChars;
    WhitespaceIsNoIdentifierChar();
    NameIsFlat(body, {';', '{'});
    StatementTextOf(lead, body, tail);
    NameCallIsSyntaxError(x, w);
  }

  /** The classification of `x;`: no `=`, and its end is the name, not `)`. */
  lemma NameCallIsSyntaxError(x: string, w: string)
    requires IsName(x) && AllWhitespace(w)
    ensures Classify(x + w + ";") == Failure("syntax error")
  {
    var r := x + w + ";";
    assert forall i :: 0 <= i < |r| ==> r[i] in Syntax.IdentifierChars || r[i] in Syntax.WhitespaceChars || r[i] == ';';
    WhitespaceIsNoIdentifierChar();
    assert Flat(r);
    FindInFlat(r, {'='}, 0);
    ClassifyWithoutEquals(r);
    assert x[|x| - 1] in Syntax.IdentifierChars;
    CallEndOf(x, w, true);
    CallNeedsParenthesis(r);
  }

  /** A name followed by whitespace starts with an identifier character and holds only those and whitespace. */
  lemma NameThenSpace(x: string, w: string)
    requires IsName(x) && AllWhitespace(w)
    ensures var p := x + w;
            p != [] && p[0] in Syntax.IdentifierChars &&
            forall i :: 0 <= i < |p| ==> p[i] in Syntax.IdentifierChars || p[i] in Syntax.WhitespaceChars
  {
    var p := x + w;
    assert p[0] == x[0];
  }

  /** A name and whitespace start a statement: no leading whitespace, and no `;` or `{` to stop at. */
  lemma HeadOfName(x: string, w: string)
    requires IsName(x) && AllWhitespace(w)
    ensures var p := x + w;
            p != [] && p[0] !in Syntax.WhitespaceChars && FindTopLevel(p, {';', '{'}, 0) == None && Net(p) == 0
  {
    NameThenSpace(x, w);
    WhitespaceIsNoIdentifierChar();
    NameIsFlat(x + w, {';', '{'});
  }

  /** A type, whitespace, a name and whitespace start a statement when the type has no `;` or `{` outside brackets. */
  lemma HeadOfType(ty: string, w: string, x: string, w1: string)
    requires ty != [] && ty[0] !in Syntax.WhitespaceChars
    requires FindTopLevel(ty, {';', '{'}, 0) == None && Net(ty) == 0
    requires AllWhitespace(w) && IsName(x) && AllWhitespace(w1)
    ensures var p := ty + w + x + w1;
            p != [] && p[0] !in Syntax.WhitespaceChars && FindTopLevel(p, {';', '{'}, 0) == None && Net(p) == 0
  {
    assert (ty + w + x + w1)[0] == ty[0];
    TypedNameIsFlat(ty, w, x, w1, {';', '{'});
  }

  /** A concatenation starts where its first part starts. */
  lemma FirstOfAppend(a: string, b: string)
    requires a != []
    ensures (a + b)[0] == a[0]
  {
  }
}
