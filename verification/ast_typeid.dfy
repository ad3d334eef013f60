/**
 * Operations on the structural type `typeid_t` of the front end: the
 * invariant, the resolved-ness check, compact printing, struct member
 * lookup and the counting of dynamic (`any`) function arguments.
 */
module AstTypeid {
  import opened FloydTypes

  /** The spelling of each base type, as the keyword table gives it. */
  function BaseTypeName(b: BaseType): (r: string)
    ensures |r| > 0
  {
    match b
    case BUndefined => "undefined"
    case BAny => "any"
    case BVoid => "void"
    case BBool => "bool"
    case BInt => "int"
    case BDouble => "double"
    case BString => "string"
    case BJson => "json"
    case BTypeid => "typeid"
    case BStruct => "struct"
    case BVector => "vector"
    case BDict => "dict"
    case BFunction => "func"
    case BUnresolved => "unresolved"
  }

  //////////////////////////////////////////////////  Invariant

  /**
   * `typeid_t::check_invariant`: a function has at least one part (its return
   * type) and, when it returns `any`, a dynamic-return rule; an unresolved
   * identifier is non-empty; every nested type satisfies the invariant too.
   */
  predicate CheckInvariant(t: Type) {
    match t
    case Struct(def) => StructInvariant(def)
    case Vector(e) => CheckInvariant(e)
    case Dict(v) => CheckInvariant(v)
    case Function(parts, _, dyn) =>
      |parts| >= 1 && (parts[0] != Any || dyn != DynNone) &&
      forall i :: 0 <= i < |parts| ==> CheckInvariant(parts[i])
    case Unresolved(name) => name != ""
    case _ => true
  }

  predicate StructInvariant(def: StructDef) {
    forall i :: 0 <= i < |def.members| ==> CheckInvariant(def.members[i].typ)
  }

  /** A valid function type has a return type, and returning `any` needs a dynamic-return rule. */
  lemma FunctionInvariantShape(t: Type)
    requires t.Function? && CheckInvariant(t)
    ensures |t.parts| >= 1
    ensures t.parts[0] == Any ==> t.dynReturn != DynNone
  {
  }

  /** The invariant holds for every type nested inside a valid type. */
  lemma {:induction false} InvariantHereditary(u: Type, t: Type)
    requires CheckInvariant(t) && Occurs(u, t)
    ensures CheckInvariant(u)
  {
    if u != t {
      match t
      case Struct(def) =>
        var i :| 0 <= i < |def.members| && Occurs(u, def.members[i].typ);
        InvariantHereditary(u, def.members[i].typ);
      case Vector(e) =>
        InvariantHereditary(u, e);
      case Dict(v) =>
        InvariantHereditary(u, v);
      case Function(parts, _, _) =>
        var i :| 0 <= i < |parts| && Occurs(u, parts[i]);
        InvariantHereditary(u, parts[i]);
    }
  }

  //////////////////////////////////////////////////  Equality

  /** `member_t::operator==`: same type and same name. */
  predicate MemberEquals(a: Member, b: Member) {
    a.typ == b.typ && a.name == b.name
  }

  /** `struct_definition_t::operator==`: the member lists compare equal element by element. */
  predicate StructDefEquals(a: StructDef, b: StructDef) {
    |a.members| == |b.members| &&
    forall i :: 0 <= i < |a.members| ==> MemberEquals(a.members[i], b.members[i])
  }

  /**
   * The comparison the variant performs: same alternative, and equal
   * contents part by part.
   */
  predicate TypeEquals(a: Type, b: Type) {
    match a
    case Struct(d) => b.Struct? && |d.members| == |b.def.members| &&
      forall i :: 0 <= i < |d.members| ==>
        TypeEquals(d.members[i].typ, b.def.members[i].typ) && d.members[i].name == b.def.members[i].name
    case Vector(e) => b.Vector? && TypeEquals(e, b.element)
    case Dict(v) => b.Dict? && TypeEquals(v, b.value)
    case Function(ps, pur, dyn) => b.Function? && |ps| == |b.parts| &&
      (forall i :: 0 <= i < |ps| ==> TypeEquals(ps[i], b.parts[i])) &&
      pur == b.purity && dyn == b.dynReturn
    case Unresolved(n) => b.Unresolved? && n == b.name
    case _ => a == b
  }

  /** Member and struct equality are exactly structural equality. */
  lemma MemberAndStructEquality(a: StructDef, b: StructDef, m: Member, n: Member)
    ensures MemberEquals(m, n) <==> m == n
    ensures StructDefEquals(a, b) <==> a == b
  {
    if StructDefEquals(a, b) {
      assert a.members == b.members;
    }
  }

  /** Type comparison is structural equality: equal trees and only equal trees compare equal. */
  lemma {:induction false} TypeEqualsIsStructural(a: Type, b: Type)
    ensures TypeEquals(a, b) <==> a == b
  {
    match a
    case Struct(d) =>
      if b.Struct? && |d.members| == |b.def.members| {
        forall i | 0 <= i < |d.members|
          ensures TypeEquals(d.members[i].typ, b.def.members[i].typ) <==> d.members[i].typ == b.def.members[i].typ
        {
          TypeEqualsIsStructural(d.members[i].typ, b.def.members[i].typ);
        }
        if TypeEquals(a, b) {
          assert d.members == b.def.members;
        }
      }
    case Vector(e) =>
      if b.Vector? {
        TypeEqualsIsStructural(e, b.element);
      }
    case Dict(v) =>
      if b.Dict? {
        TypeEqualsIsStructural(v, b.value);
      }
    case Function(ps, _, _) =>
      if b.Function? && |ps| == |b.parts| {
        forall i | 0 <= i < |ps|
          ensures TypeEquals(ps[i], b.parts[i]) <==> ps[i] == b.parts[i]
        {
          TypeEqualsIsStructural(ps[i], b.parts[i]);
        }
        if TypeEquals(a, b) {
          assert ps == b.parts;
        }
      }
    case _ =>
  }

  /** The comparisons checked by the unit tests of the variant. */
  lemma TypeEqualsExamples()
    ensures TypeEquals(Vector(Int), Vector(Int))
    ensures !TypeEquals(Vector(Int), Dict(Int))
    ensures !TypeEquals(Vector(Int), Vector(String))
    ensures TypeEquals(Function([String, Int, Double], Pure, DynNone), Function([String, Int, Double], Pure, DynNone))
  {
    TypeEqualsIsStructural(Vector(Int), Vector(Int));
    TypeEqualsIsStructural(Function([String, Int, Double], Pure, DynNone), Function([String, Int, Double], Pure, DynNone));
  }

  //////////////////////////////////////////////////  Resolved-ness

  /**
   * `typeid_t::check_types_resolved`: undefined and unresolved identifiers are
   * unresolved, other scalars are resolved, and a composite is resolved when
   * all of its parts are.
   */
  predicate CheckTypesResolved(t: Type) {
    match t
    case Undefined => false
    case Unresolved(_) => false
    case Struct(def) => StructTypesResolved(def.members)
    case Vector(e) => CheckTypesResolved(e)
    case Dict(v) => CheckTypesResolved(v)
    case Function(parts, _, _) => AllTypesResolved(parts)
    case _ => true
  }

  /** `check_types_resolved_int`: stops at the first unresolved element. */
  predicate AllTypesResolved(ts: seq<Type>) {
    if ts == [] then true
    else if !CheckTypesResolved(ts[0]) then false
    else AllTypesResolved(ts[1..])
  }

  /** `struct_definition_t::check_types_resolved`. */
  predicate StructTypesResolved(ms: seq<Member>) {
    if ms == [] then true
    else if !CheckTypesResolved(ms[0].typ) then false
    else StructTypesResolved(ms[1..])
  }

  /** The reference reading: no undefined type and no unresolved identifier anywhere in the tree. */
  ghost predicate NoUnresolvedInside(t: Type) {
    forall u :: Occurs(u, t) ==> !u.Undefined? && !u.Unresolved?
  }

  lemma {:induction false} AllTypesResolvedIff(ts: seq<Type>)
    ensures AllTypesResolved(ts) <==> forall i :: 0 <= i < |ts| ==> CheckTypesResolved(ts[i])
  {
    if ts != [] {
      AllTypesResolvedIff(ts[1..]);
      assert forall i :: 1 <= i < |ts| ==> ts[i] == ts[1..][i - 1];
    }
  }

  lemma {:induction false} StructTypesResolvedIff(ms: seq<Member>)
    ensures StructTypesResolved(ms) <==> forall i :: 0 <= i < |ms| ==> CheckTypesResolved(ms[i].typ)
  {
    if ms != [] {
      StructTypesResolvedIff(ms[1..]);
      assert forall i :: 1 <= i < |ms| ==> ms[i] == ms[1..][i - 1];
    }
  }

  /** A composite is resolved exactly when each of its component types is. */
  lemma CompositeResolvedIff(t: Type)
    requires IsComposite(t)
    ensures CheckTypesResolved(t) <==> forall i :: 0 <= i < |Components(t)| ==> CheckTypesResolved(Components(t)[i])
  {
    match t
    case Struct(def) =>
      StructTypesResolvedIff(def.members);
      assert forall i :: 0 <= i < |def.members| ==> Components(t)[i] == def.members[i].typ;
    case Function(parts, _, _) =>
      AllTypesResolvedIff(parts);
      assert Components(t) == parts;
    case Vector(e) =>
      assert Components(t)[0] == e && |Components(t)| == 1;
      assert CheckTypesResolved(t) == CheckTypesResolved(e);
    case Dict(v) =>
      assert Components(t)[0] == v && |Components(t)| == 1;
      assert CheckTypesResolved(t) == CheckTypesResolved(v);
  }

  /** The resolved-ness check holds exactly when no undefined or unresolved type occurs in the tree. */
  lemma {:induction false} CheckTypesResolvedMeansNoUnresolved(t: Type)
    ensures CheckTypesResolved(t) <==> NoUnresolvedInside(t)
  {
    match t
    case Struct(def) =>
      StructTypesResolvedIff(def.members);
      forall i | 0 <= i < |def.members| {
        CheckTypesResolvedMeansNoUnresolved(def.members[i].typ);
      }
      if !CheckTypesResolved(t) {
        var i :| 0 <= i < |def.members| && !CheckTypesResolved(def.members[i].typ);
        var u :| Occurs(u, def.members[i].typ) && (u.Undefined? || u.Unresolved?);
        assert Occurs(u, t);
      }
    case Vector(e) =>
      CheckTypesResolvedMeansNoUnresolved(e);
      if !CheckTypesResolved(t) {
        var u :| Occurs(u, e) && (u.Undefined? || u.Unresolved?);
        assert Occurs(u, t);
      }
    case Dict(v) =>
      CheckTypesResolvedMeansNoUnresolved(v);
      if !CheckTypesResolved(t) {
        var u :| Occurs(u, v) && (u.Undefined? || u.Unresolved?);
        assert Occurs(u, t);
      }
    case Function(parts, _, _) =>
      AllTypesResolvedIff(parts);
      forall i | 0 <= i < |parts| {
        CheckTypesResolvedMeansNoUnresolved(parts[i]);
      }
      if !CheckTypesResolved(t) {
        var i :| 0 <= i < |parts| && !CheckTypesResolved(parts[i]);
        var u :| Occurs(u, parts[i]) && (u.Undefined? || u.Unresolved?);
        assert Occurs(u, t);
      }
    case _ =>
      assert Occurs(t, t);
  }

  //////////////////////////////////////////////////  Compact strings

  /** `concat_strings_with_divider`: the elements with the divider between neighbours. */
  function JoinWithDivider(ss: seq<string>, divider: string): string {
    if ss == [] then ""
    else if |ss| == 1 then ss[0]
    else ss[0] + divider + JoinWithDivider(ss[1..], divider)
  }

  /** `typeid_to_compact_string`. */
  function CompactString(t: Type): string {
    match t
    case Unresolved(name) => "•" + name + "•"
    case Struct(def) => StructCompactString(def)
    case Vector(e) => "[" + CompactString(e) + "]"
    case Dict(v) => "[string:" + CompactString(v) + "]"
    case Function(parts, purity, _) =>
      if |parts| == 0 then "function ()"   // no return part: `get_function_return` asserts against it, and `CheckInvariant` excludes it
      else
        "function " + CompactString(parts[0]) + "(" + JoinWithDivider(CompactStrings(parts[1..]), ",") + ") "
        + (if purity == Pure then "pure" else "impure")
    case _ => BaseTypeName(BaseTypeOf(t))
  }

  function CompactStrings(ts: seq<Type>): (r: seq<string>)
    ensures |r| == |ts|
  {
    if ts == [] then [] else [CompactString(ts[0])] + CompactStrings(ts[1..])
  }

  /** `to_compact_string(struct_definition_t)`. */
  function StructCompactString(def: StructDef): string {
    "struct {" + MembersCompactString(def.members) + "}"
  }

  /** One `T name;` per member, in member order. */
  function MembersCompactString(ms: seq<Member>): string {
    if ms == [] then "" else MemberCompactString(ms[0]) + MembersCompactString(ms[1..])
  }

  function MemberCompactString(m: Member): string {
    CompactString(m.typ) + " " + m.name + ";"
  }

  lemma {:induction false} MembersCompactStringSnoc(ms: seq<Member>, m: Member)
    ensures MembersCompactString(ms + [m]) == MembersCompactString(ms) + MemberCompactString(m)
  {
    if ms == [] {
      assert [m][1..] == [];
    } else {
      assert (ms + [m])[1..] == ms[1..] + [m];
      MembersCompactStringSnoc(ms[1..], m);
    }
  }

  /**
   * The accumulating loop of `to_compact_string`: "struct {", then
   * "T name;" for each member in order, then "}".
   */
  method ToCompactString(def: StructDef) returns (s: string)
    ensures s == StructCompactString(def)
  {
    s := "struct {";
    var i := 0;
    while i < |def.members|
      invariant 0 <= i <= |def.members|
      invariant s == "struct {" + MembersCompactString(def.members[..i])
    {
      var e := def.members[i];
      MembersCompactStringSnoc(def.members[..i], e);
      assert def.members[..i + 1] == def.members[..i] + [e];
      s := s + CompactString(e.typ) + " " + e.name + ";";
      i := i + 1;
    }
    assert def.members[..i] == def.members;
    s := s + "}";
  }

  /** `s` begins with `p`. */
  predicate HasPrefix(s: string, p: string) {
    |p| <= |s| && s[..|p|] == p
  }

  /** A text that differs from `p` at some position of `p` does not begin with `p`. */
  lemma DiffersFromPrefix(s: string, p: string, k: nat)
    requires k < |p| && (k >= |s| || s[k] != p[k])
    ensures !HasPrefix(s, p)
  {
  }

  /** A text begins with `p` when its first part does. */
  lemma PrefixOfConcat(a: string, b: string, p: string)
    requires HasPrefix(a, p)
    ensures HasPrefix(a + b, p)
  {
    assert (a + b)[..|p|] == a[..|p|];
  }

  /** A function type prints starting with `function `. */
  lemma FunctionPrefix(parts: seq<Type>, purity: Purity, dyn: DynReturn)
    ensures HasPrefix(CompactString(Function(parts, purity, dyn)), "function ")
  {
    var p := "function ";
    if |parts| > 0 {
      var a := p + CompactString(parts[0]);
      PrefixOfConcat(p, CompactString(parts[0]), p);
      PrefixOfConcat(a, "(", p);
      PrefixOfConcat(a + "(", JoinWithDivider(CompactStrings(parts[1..]), ","), p);
      PrefixOfConcat(a + "(" + JoinWithDivider(CompactStrings(parts[1..]), ","), ") ", p);
      PrefixOfConcat(a + "(" + JoinWithDivider(CompactStrings(parts[1..]), ",") + ") ",
                     if purity == Pure then "pure" else "impure", p);
    } else {
      PrefixOfConcat(p, "()", p);
    }
  }

  /** A dict type prints starting with `[string:`. */
  lemma DictPrefix(v: Type)
    ensures HasPrefix(CompactString(Dict(v)), "[string:")
  {
    PrefixOfConcat("[string:", CompactString(v), "[string:");
    PrefixOfConcat("[string:" + CompactString(v), "]", "[string:");
  }

  /** A struct type prints starting with `struct {`. */
  lemma StructPrefix(def: StructDef)
    ensures HasPrefix(CompactString(Struct(def)), "struct {")
  {
    PrefixOfConcat("struct {", MembersCompactString(def.members), "struct {");
    PrefixOfConcat("struct {" + MembersCompactString(def.members), "}", "struct {");
  }

  /** Each kind of type prints with its own leading text. */
  lemma CompactStringShape(t: Type)
    ensures var s := CompactString(t);
            |s| > 0 &&
            (t.Unresolved? ==> s[0] == '•') &&
            (t.Vector? ==> s == "[" + CompactString(t.element) + "]") &&
            (t.Dict? ==> HasPrefix(s, "[string:")) &&
            (t.Function? ==> HasPrefix(s, "function ")) &&
            (t.Struct? ==> HasPrefix(s, "struct {")) &&
            (!IsComposite(t) && !t.Unresolved? ==> s == BaseTypeName(BaseTypeOf(t)))
  {
    match t
    case Dict(v) => DictPrefix(v);
    case Function(parts, purity, dyn) => FunctionPrefix(parts, purity, dyn);
    case Struct(def) => StructPrefix(def);
    case _ =>
  }

  /** No printed type begins with `string:`, so a vector never prints like a dict. */
  lemma NoCompactStringStartsWithStringColon(t: Type)
    ensures !HasPrefix(CompactString(t), "string:")
  {
    var s := CompactString(t);
    CompactStringShape(t);
    if t.Struct? {
      assert s[..8] == "struct {";
      DiffersFromPrefix(s, "string:", 3);
    } else if IsComposite(t) || t.Unresolved? {
      if t.Dict? {
        assert s[..8] == "[string:";
      } else if t.Function? {
        assert s[..9] == "function ";
      }
      DiffersFromPrefix(s, "string:", 0);
    } else {
      DiffersFromPrefix(s, "string:", if |s| < 7 then 6 else 0);
    }
  }

  /** The kinds of type a compact string distinguishes. */
  datatype PrintKind = UnresolvedKind | VectorKind | DictKind | FunctionKind | StructKind | ScalarKind

  function KindOf(t: Type): PrintKind {
    match t
    case Unresolved(_) => UnresolvedKind
    case Vector(_) => VectorKind
    case Dict(_) => DictKind
    case Function(_, _, _) => FunctionKind
    case Struct(_) => StructKind
    case _ => ScalarKind
  }

  /** The kind a compact string announces with its leading text. */
  function PrintedKind(s: string): PrintKind {
    if s != [] && s[0] == '•' then UnresolvedKind
    else if HasPrefix(s, "[string:") then DictKind
    else if s != [] && s[0] == '[' then VectorKind
    else if HasPrefix(s, "function ") then FunctionKind
    else if HasPrefix(s, "struct {") then StructKind
    else ScalarKind
  }

  lemma DictTextKind(s: string)
    requires HasPrefix(s, "[string:")
    ensures PrintedKind(s) == DictKind
  {
    assert s[0] == "[string:"[0];
  }

  lemma VectorTextKind(s: string, se: string)
    requires s == "[" + se + "]" && !HasPrefix(se, "string:")
    ensures PrintedKind(s) == VectorKind
  {
    assert s[0] == '[';
    if |se| < 7 {
      DiffersFromPrefix(s, "[string:", 7);
    } else {
      assert se[..7] != "string:";
      var k :| 0 <= k < 7 && se[k] != "string:"[k];
      assert s[k + 1] == se[k] && "[string:"[k + 1] == "string:"[k];
      DiffersFromPrefix(s, "[string:", k + 1);
    }
  }

  lemma FunctionTextKind(s: string)
    requires HasPrefix(s, "function ")
    ensures PrintedKind(s) == FunctionKind
  {
    assert s[0] == 'f';
    DiffersFromPrefix(s, "[string:", 0);
  }

  lemma StructTextKind(s: string)
    requires HasPrefix(s, "struct {")
    ensures PrintedKind(s) == StructKind
  {
    assert s[0] == 's';
    DiffersFromPrefix(s, "[string:", 0);
    DiffersFromPrefix(s, "function ", 0);
  }

  /** The names of the scalar base types announce no other kind. */
  lemma ScalarNameKind(t: Type)
    requires !IsComposite(t) && !t.Unresolved?
    ensures PrintedKind(BaseTypeName(BaseTypeOf(t))) == ScalarKind
  {
    var s := BaseTypeName(BaseTypeOf(t));
    assert s[0] != '•' && s[0] != '[';
    DiffersFromPrefix(s, "[string:", 0);
    if s == "string" || s == "typeid" {
      DiffersFromPrefix(s, "function ", 0);
      DiffersFromPrefix(s, "struct {", if s == "string" then 3 else 0);
    } else {
      DiffersFromPrefix(s, "function ", if |s| < 9 then 8 else 0);
      DiffersFromPrefix(s, "struct {", if |s| < 8 then 7 else 0);
    }
  }

  /**
   * The kind of a type can be read back from the start of its compact
   * string: `•` for unresolved identifiers, `[string:` for dicts, any other
   * `[` for vectors, `function ` for functions and `struct {` for structs.
   */
  lemma CompactStringKind(t: Type)
    ensures PrintedKind(CompactString(t)) == KindOf(t)
  {
    match t
    case Vector(e) =>
      NoCompactStringStartsWithStringColon(e);
      VectorTextKind(CompactString(t), CompactString(e));
    case Dict(v) =>
      DictPrefix(v);
      DictTextKind(CompactString(t));
    case Function(parts, purity, dyn) =>
      FunctionPrefix(parts, purity, dyn);
      FunctionTextKind(CompactString(t));
    case Struct(def) =>
      StructPrefix(def);
      StructTextKind(CompactString(t));
    case Unresolved(_) =>
    case _ =>
      ScalarNameKind(t);
  }

  /** The struct example of the unit tests prints as "struct {int a;double b;}". */
  lemma StructCompactStringExample()
    ensures StructCompactString(StructDef([Member(Int, "a"), Member(Double, "b")])) == "struct {int a;double b;}"
  {
    var ms := [Member(Int, "a"), Member(Double, "b")];
    assert ms[1..][1..] == [];
  }

  //////////////////////////////////////////////////  Struct members

  /** `find_struct_member_index`: the index of the first member called `name`, or -1. */
  method FindStructMemberIndex(def: StructDef, name: string) returns (r: int)
    ensures -1 <= r < |def.members|
    ensures r == -1 <==> forall i :: 0 <= i < |def.members| ==> def.members[i].name != name
    ensures r >= 0 ==> def.members[r].name == name && forall i :: 0 <= i < r ==> def.members[i].name != name
  {
    var index := 0;
    while index < |def.members| && def.members[index].name != name
      invariant 0 <= index <= |def.members|
      invariant forall i :: 0 <= i < index ==> def.members[i].name != name
    {
      index := index + 1;
    }
    if index == |def.members| {
      r := -1;
    } else {
      r := index;
    }
  }

  /** `get_member_types`: the member types, in member order. */
  method GetMemberTypes(ms: seq<Member>) returns (r: seq<Type>)
    ensures |r| == |ms|
    ensures forall i :: 0 <= i < |ms| ==> r[i] == ms[i].typ
  {
    r := [];
    var i := 0;
    while i < |ms|
      invariant 0 <= i <= |ms|
      invariant |r| == i
      invariant forall k :: 0 <= k < i ==> r[k] == ms[k].typ
    {
      r := r + [ms[i].typ];
      i := i + 1;
    }
  }

  //////////////////////////////////////////////////  Dynamic functions

  /** The number of `any` entries among `args`. */
  function AnyCount(args: seq<Type>): nat {
    if args == [] then 0 else (if args[0] == Any then 1 else 0) + AnyCount(args[1..])
  }

  lemma {:induction false} AnyCountSnoc(args: seq<Type>, a: Type)
    ensures AnyCount(args + [a]) == AnyCount(args) + (if a == Any then 1 else 0)
  {
    if args == [] {
      assert [a][1..] == [];
    } else {
      assert (args + [a])[1..] == args[1..] + [a];
      AnyCountSnoc(args[1..], a);
    }
  }

  /** There is an `any` argument exactly when the count is positive. */
  lemma {:induction false} AnyCountPositive(args: seq<Type>)
    ensures AnyCount(args) > 0 <==> exists i :: 0 <= i < |args| && args[i] == Any
  {
    if args != [] {
      AnyCountPositive(args[1..]);
      if exists i :: 0 <= i < |args| && args[i] == Any {
        var i :| 0 <= i < |args| && args[i] == Any;
        if i > 0 {
          assert args[1..][i - 1] == Any;
        }
      }
      if exists i :: 0 <= i < |args[1..]| && args[1..][i] == Any {
        var i :| 0 <= i < |args[1..]| && args[1..][i] == Any;
        assert args[i + 1] == Any;
      }
    }
  }

  /** `count_function_dynamic_args`: counts the `any` arguments. */
  method CountFunctionDynamicArgs(args: seq<Type>) returns (count: int)
    ensures count == AnyCount(args)
  {
    count := 0;
    var i := 0;
    while i < |args|
      invariant 0 <= i <= |args|
      invariant count == AnyCount(args[..i])
    {
      AnyCountSnoc(args[..i], args[i]);
      assert args[..i + 1] == args[..i] + [args[i]];
      if args[i] == Any {
        count := count + 1;
      }
      i := i + 1;
    }
    assert args[..i] == args;
  }

  /** `is_dynamic_function`: the function type takes at least one `any` argument. */
  method IsDynamicFunction(t: Type) returns (b: bool)
    requires t.Function? && |t.parts| >= 1
    ensures b <==> exists i :: 1 <= i < |t.parts| && t.parts[i] == Any
  {
    var count := CountFunctionDynamicArgs(t.parts[1..]);
    AnyCountPositive(t.parts[1..]);
    b := count > 0;
    if b {
      var i :| 0 <= i < |t.parts[1..]| && t.parts[1..][i] == Any;
      assert t.parts[i + 1] == Any;
    }
    if exists i :: 1 <= i < |t.parts| && t.parts[i] == Any {
      var i :| 1 <= i < |t.parts| && t.parts[i] == Any;
      assert t.parts[1..][i - 1] == Any;
    }
  }
}
