/**
 * The JSON form of types used in the AST: scalars are tagged keyword
 * strings, composites are arrays headed by their base-type name, and
 * unresolved identifiers carry their own tag.
 */
module TypeidJson {
  import opened Wrappers
  import opened JsonValues
  import opened FloydTypes
  import opened AstTypeid

  /** `k_plain` writes bare names; `k_tag_resolve_state` prefixes resolved scalars with the resolved tag. */
  datatype JsonTags = Plain | ResolveState

  const ResolvedTag: char := '^'
  const UnresolvedTag: char := '#'

  function Tagged(name: string, tags: JsonTags): string {
    if tags == ResolveState then [ResolvedTag] + name else name
  }

  predicate IsScalar(t: Type) {
    !IsComposite(t) && !t.Unresolved?
  }

  //////////////////////////////////////////////////  Encoding

  /** `typeid_to_ast_json`. */
  function TypeidToAstJson(t: Type, tags: JsonTags): Json
    requires CheckInvariant(t)
  {
    var name := BaseTypeName(BaseTypeOf(t));
    match t
    case Struct(def) => JArray([JString(Tagged(name, tags)), StructDefinitionToAstJson(def)])
    case Vector(e) => JArray([JString(name), TypeidToAstJson(e, tags)])
    case Dict(v) => JArray([JString(name), TypeidToAstJson(v, tags)])
    case Function(parts, purity, _) =>
      JArray([JString(name), TypeidToAstJson(parts[0], tags), JArray(EncodeTypes(parts[1..])), JBool(purity == Pure)])
    case Unresolved(id) => JString([UnresolvedTag] + id)
    case _ => JString(Tagged(name, tags))
  }

  /** `struct_definition_to_ast_json`: a one-element array holding the member list. */
  function StructDefinitionToAstJson(def: StructDef): Json
    requires StructInvariant(def)
  {
    JArray([JArray(EncodeMembers(def.members))])
  }

  /** The value `typeids_to_json_array` builds: each type with resolve-state tags. */
  function EncodeTypes(ts: seq<Type>): (r: seq<Json>)
    requires forall i :: 0 <= i < |ts| ==> CheckInvariant(ts[i])
    ensures |r| == |ts|
  {
    if ts == [] then [] else [TypeidToAstJson(ts[0], ResolveState)] + EncodeTypes(ts[1..])
  }

  function MemberToJson(m: Member): Json
    requires CheckInvariant(m.typ)
  {
    JObject(map["type" := TypeidToAstJson(m.typ, ResolveState), "name" := JString(m.name)])
  }

  /** The value `members_to_json` builds: one `{"type", "name"}` object per member. */
  function EncodeMembers(ms: seq<Member>): (r: seq<Json>)
    requires forall i :: 0 <= i < |ms| ==> CheckInvariant(ms[i].typ)
    ensures |r| == |ms|
  {
    if ms == [] then [] else [MemberToJson(ms[0])] + EncodeMembers(ms[1..])
  }

  //////////////////////////////////////////////////  Decoding

  /** The scalar named by a resolved-tagged string, with the tag already removed. */
  function DecodeKeyword(s: string): Result<Type> {
    if s == "" then Success(Undefined)
    else if s == "undefined" then Success(Undefined)
    else if s == "any" then Success(Any)
    else if s == "void" then Success(Void)
    else if s == "bool" then Success(Bool)
    else if s == "int" then Success(Int)
    else if s == "double" then Success(Double)
    else if s == "string" then Success(String)
    else if s == "typeid" then Success(Typeid)
    else if s == "json" then Success(Json)
    else Failure("unknown type keyword")
  }

  /**
   * `typeid_from_ast_json`. Reading the first character of an empty string or
   * the elements of a too-short array is undefined in the source; here it is a
   * failure.
   */
  function TypeidFromAstJson(j: Json): Result<Type>
    decreases j, 3
  {
    match j
    case JString(s0) => TypeFromString(s0)
    case JArray(a) => TypeFromArray(a)
    case _ => Failure("Invalid typeid-json.")
  }

  /** A string is a resolved-tagged scalar keyword or an unresolved-tagged identifier. */
  function TypeFromString(s0: string): Result<Type> {
    if |s0| == 0 then Failure("empty type string")
    else if s0[0] == ResolvedTag then DecodeKeyword(s0[1..])
    else if s0[0] == UnresolvedTag then Success(Unresolved(s0[1..]))
    else Failure("untagged type string")
  }

  /** An array is headed by a base-type name, which may carry the resolved tag. */
  function TypeFromArray(a: seq<Json>): Result<Type>
    decreases a, 2
  {
    if |a| == 0 || !a[0].JString? || |a[0].s| == 0 then Failure("malformed type array")
    else
      var s0 := a[0].s;
      var s := if s0[0] == ResolvedTag then s0[1..] else s0;
      if s == "struct" then StructFromArray(a)
      else if s == "vector" then
        if |a| < 2 then Failure("malformed vector type")
        else
          var e :- TypeidFromAstJson(a[1]);
          Success(Vector(e))
      else if s == "dict" then
        if |a| < 2 then Failure("malformed dict type")
        else
          var v :- TypeidFromAstJson(a[1]);
          Success(Dict(v))
      else if s == "func" then FunctionFromArray(a)
      else Failure("unknown type array")
  }

  function StructFromArray(a: seq<Json>): Result<Type>
    decreases a, 1
  {
    if |a| < 2 || !a[1].JArray? || |a[1].elements| == 0 || !a[1].elements[0].JArray? then
      Failure("malformed struct definition")
    else
      var members :- DecodeMembers(a[1].elements[0].elements);
      Success(Struct(StructDef(members)))
  }

  /** The return type, then the argument array, then the purity, which must be a JSON boolean. */
  function FunctionFromArray(a: seq<Json>): Result<Type>
    decreases a, 1
  {
    if |a| < 2 then Failure("malformed function type")
    else
      var ret :- TypeidFromAstJson(a[1]);
      if |a| < 3 || !a[2].JArray? then Failure("malformed function arguments")
      else
        var args :- DecodeTypes(a[2].elements);
        if |a| < 4 || !a[3].JBool? then Failure("function purity must be a boolean")
        else Success(Function([ret] + args, if a[3].b then Pure else Impure, DynNone))
  }

  /** The value `typeids_from_json_array` builds, failing at the first element that fails. */
  function DecodeTypes(js: seq<Json>): Result<seq<Type>>
    decreases js, 0
  {
    if js == [] then Success([])
    else
      var t :- TypeidFromAstJson(js[0]);
      var rest :- DecodeTypes(js[1..]);
      Success([t] + rest)
  }

  function MemberFromJson(j: Json): Result<Member>
    decreases j, 4
  {
    if !j.JObject? || "type" !in j.fields || "name" !in j.fields then Failure("malformed member")
    else
      var t :- TypeidFromAstJson(j.fields["type"]);
      if !j.fields["name"].JString? then Failure("member name must be a string")
      else Success(Member(t, j.fields["name"].s))
  }

  /** The value `members_from_json` builds. */
  function DecodeMembers(js: seq<Json>): Result<seq<Member>>
    decreases js, 0
  {
    if js == [] then Success([])
    else
      var m :- MemberFromJson(js[0]);
      var rest :- DecodeMembers(js[1..]);
      Success([m] + rest)
  }

  /** `strip_resolve_tag`: drops one leading resolved or unresolved tag. */
  function StripResolveTag(s: string): (r: string)
    requires |s| > 1
    ensures s[0] == ResolvedTag || s[0] == UnresolvedTag ==> [s[0]] + r == s
    ensures s[0] != ResolvedTag && s[0] != UnresolvedTag ==> r == s
    ensures |r| > 0
  {
    if s[0] == '^' then s[1..]
    else if s[0] == '#' then s[1..]
    else s
  }

  //////////////////////////////////////////////////  The loops

  /** `acc` followed by the decoded rest, or the failure of the rest. */
  function Prepend<T>(acc: seq<T>, r: Result<seq<T>>): Result<seq<T>> {
    if r.Success? then Success(acc + r.value) else r
  }

  lemma PrependNothing<T>(r: Result<seq<T>>)
    ensures Prepend([], r) == r
  {
    if r.Success? {
      assert [] + r.value == r.value;
    }
  }

  lemma PrependTwice<T>(acc: seq<T>, x: T, r: Result<seq<T>>)
    ensures Prepend(acc, Prepend([x], r)) == Prepend(acc + [x], r)
  {
    if r.Success? {
      assert acc + ([x] + r.value) == (acc + [x]) + r.value;
    }
  }

  /** `typeids_to_json_array`. */
  method TypeidsToJsonArray(ts: seq<Type>) returns (r: seq<Json>)
    requires forall i :: 0 <= i < |ts| ==> CheckInvariant(ts[i])
    ensures r == EncodeTypes(ts)
  {
    r := [];
    var i := 0;
    while i < |ts|
      invariant 0 <= i <= |ts|
      invariant r + EncodeTypes(ts[i..]) == EncodeTypes(ts)
    {
      assert ts[i..][1..] == ts[i + 1..];
      r := r + [TypeidToAstJson(ts[i], ResolveState)];
      i := i + 1;
    }
  }

  /** `members_to_json`. */
  method MembersToJson(ms: seq<Member>) returns (r: Json)
    requires forall i :: 0 <= i < |ms| ==> CheckInvariant(ms[i].typ)
    ensures r == JArray(EncodeMembers(ms))
  {
    var acc: seq<Json> := [];
    var i := 0;
    while i < |ms|
      invariant 0 <= i <= |ms|
      invariant acc + EncodeMembers(ms[i..]) == EncodeMembers(ms)
    {
      assert ms[i..][1..] == ms[i + 1..];
      var member := JObject(map["type" := TypeidToAstJson(ms[i].typ, ResolveState), "name" := JString(ms[i].name)]);
      acc := acc + [member];
      i := i + 1;
    }
    r := JArray(acc);
  }

  /** `typeids_from_json_array`: stops at the first element that does not decode. */
  method TypeidsFromJsonArray(js: seq<Json>) returns (r: Result<seq<Type>>)
    ensures r == DecodeTypes(js)
  {
    var acc: seq<Type> := [];
    var i := 0;
    PrependNothing(DecodeTypes(js));
    assert js[0..] == js;
    while i < |js|
      invariant 0 <= i <= |js|
      invariant DecodeTypes(js) == Prepend(acc, DecodeTypes(js[i..]))
    {
      assert js[i..][1..] == js[i + 1..];
      var t := TypeidFromAstJson(js[i]);
      assert js[i..][0] == js[i];
      if t.Failure? {
        return Failure(t.error);
      }
      PrependTwice(acc, t.value, DecodeTypes(js[i + 1..]));
      acc := acc + [t.value];
      i := i + 1;
    }
    assert js[i..] == [];
    assert acc + [] == acc;
    r := Success(acc);
  }

  /** `members_from_json`: stops at the first member that does not decode. */
  method MembersFromJson(js: seq<Json>) returns (r: Result<seq<Member>>)
    ensures r == DecodeMembers(js)
  {
    var acc: seq<Member> := [];
    var i := 0;
    PrependNothing(DecodeMembers(js));
    assert js[0..] == js;
    while i < |js|
      invariant 0 <= i <= |js|
      invariant DecodeMembers(js) == Prepend(acc, DecodeMembers(js[i..]))
    {
      assert js[i..][1..] == js[i + 1..];
      var m := MemberFromJson(js[i]);
      assert js[i..][0] == js[i];
      if m.Failure? {
        return Failure(m.error);
      }
      PrependTwice(acc, m.value, DecodeMembers(js[i + 1..]));
      acc := acc + [m.value];
      i := i + 1;
    }
    assert js[i..] == [];
    assert acc + [] == acc;
    r := Success(acc);
  }

  //////////////////////////////////////////////////  Properties

  /**
   * The types the JSON form represents exactly: the decoder always builds
   * function types without a dynamic-return rule.
   */
  predicate JsonRepresentable(t: Type) {
    match t
    case Struct(def) => forall i :: 0 <= i < |def.members| ==> JsonRepresentable(def.members[i].typ)
    case Vector(e) => JsonRepresentable(e)
    case Dict(v) => JsonRepresentable(v)
    case Function(parts, _, dyn) => dyn == DynNone && forall i :: 0 <= i < |parts| ==> JsonRepresentable(parts[i])
    case _ => true
  }

  /** Scalars are their base-type name, carrying the resolved tag only with resolve-state tags. */
  lemma ScalarEncoding(t: Type, tags: JsonTags)
    requires IsScalar(t)
    ensures TypeidToAstJson(t, tags) == JString(if tags == ResolveState then [ResolvedTag] + BaseTypeName(BaseTypeOf(t)) else BaseTypeName(BaseTypeOf(t)))
    ensures tags == ResolveState ==> TypeidFromAstJson(TypeidToAstJson(t, tags)) == Success(t)
  {
  }

  /** A resolved-tagged string that names no scalar keyword is rejected. */
  lemma UnknownKeywordFails(s: string)
    requires s !in {"", "undefined", "any", "void", "bool", "int", "double", "string", "typeid", "json"}
    ensures TypeidFromAstJson(JString([ResolvedTag] + s)).Failure?
  {
    assert ([ResolvedTag] + s)[1..] == s;
  }

  /** An unresolved-tagged string decodes to the identifier after the tag. */
  lemma UnresolvedTagDecodes(id: string)
    ensures TypeidFromAstJson(JString([UnresolvedTag] + id)) == Success(Unresolved(id))
  {
    assert ([UnresolvedTag] + id)[1..] == id;
  }

  /** A function array whose fourth element is not a boolean is rejected. */
  lemma FunctionPurityMustBeBool(a: seq<Json>)
    requires |a| >= 4 && a[0] == JString("func") && !a[3].JBool?
    ensures TypeidFromAstJson(JArray(a)).Failure?
  {
    assert a[0].s[0] != ResolvedTag;
    assert TypeFromArray(a) == FunctionFromArray(a);
  }

  /** Tagging a name and stripping the tag gives the name back. */
  lemma StripResolveTagInverse(name: string)
    requires |name| > 0
    ensures StripResolveTag([ResolvedTag] + name) == name
    ensures StripResolveTag([UnresolvedTag] + name) == name
  {
    assert ([ResolvedTag] + name)[1..] == name;
    assert ([UnresolvedTag] + name)[1..] == name;
  }

  /** Decoding the resolve-state encoding of a type gives the type back. */
  lemma {:induction false} RoundTrip(t: Type)
    requires CheckInvariant(t) && JsonRepresentable(t)
    ensures TypeidFromAstJson(TypeidToAstJson(t, ResolveState)) == Success(t)
  {
    match t
    case Struct(def) =>
      MembersRoundTrip(def.members);
      StructRoundTrip(def);
    case Vector(e) =>
      RoundTrip(e);
    case Dict(v) =>
      RoundTrip(v);
    case Function(parts, purity, dyn) =>
      RoundTrip(parts[0]);
      TypesRoundTrip(parts[1..]);
      FunctionRoundTrip(t);
    case Unresolved(id) =>
      UnresolvedTagDecodes(id);
    case _ =>
      ScalarEncoding(t, ResolveState);
  }

  lemma StructRoundTrip(def: StructDef)
    requires StructInvariant(def)
    requires DecodeMembers(EncodeMembers(def.members)) == Success(def.members)
    ensures TypeidFromAstJson(TypeidToAstJson(Struct(def), ResolveState)) == Success(Struct(def))
  {
    var a := [JString([ResolvedTag] + "struct"), StructDefinitionToAstJson(def)];
    assert TypeidToAstJson(Struct(def), ResolveState) == JArray(a);
    assert a[0].s[1..] == "struct";
    assert TypeFromArray(a) == StructFromArray(a);
    assert a[1].elements[0].elements == EncodeMembers(def.members);
  }

  lemma FunctionRoundTrip(t: Type)
    requires t.Function? && CheckInvariant(t) && t.dynReturn == DynNone
    requires TypeidFromAstJson(TypeidToAstJson(t.parts[0], ResolveState)) == Success(t.parts[0])
    requires DecodeTypes(EncodeTypes(t.parts[1..])) == Success(t.parts[1..])
    ensures TypeidFromAstJson(TypeidToAstJson(t, ResolveState)) == Success(t)
  {
    var a := [JString("func"), TypeidToAstJson(t.parts[0], ResolveState), JArray(EncodeTypes(t.parts[1..])), JBool(t.purity == Pure)];
    assert TypeidToAstJson(t, ResolveState) == JArray(a);
    FunctionTagSelects(a);
    FunctionArrayDecodes(t, a);
  }

  /** An array tagged `func` is decoded as a function type. */
  lemma FunctionTagSelects(a: seq<Json>)
    requires |a| > 0 && a[0] == JString("func")
    ensures TypeFromArray(a) == FunctionFromArray(a)
  {
    assert a[0].s[0] != ResolvedTag;
  }

  /** The parts of a function type's array decode back to the function type. */
  lemma FunctionArrayDecodes(t: Type, a: seq<Json>)
    requires t.Function? && CheckInvariant(t) && t.dynReturn == DynNone
    requires |a| == 4 && a[2].JArray? && a[3] == JBool(t.purity == Pure)
    requires TypeidFromAstJson(a[1]) == Success(t.parts[0])
    requires DecodeTypes(a[2].elements) == Success(t.parts[1..])
    ensures FunctionFromArray(a) == Success(t)
  {
    assert [t.parts[0]] + t.parts[1..] == t.parts;
  }

  /** `typeids_to_json_array` and `typeids_from_json_array` are inverse. */
  lemma {:induction false} TypesRoundTrip(ts: seq<Type>)
    requires forall i :: 0 <= i < |ts| ==> CheckInvariant(ts[i]) && JsonRepresentable(ts[i])
    ensures DecodeTypes(EncodeTypes(ts)) == Success(ts)
  {
    if ts != [] {
      RoundTrip(ts[0]);
      TypesRoundTrip(ts[1..]);
      assert EncodeTypes(ts)[1..] == EncodeTypes(ts[1..]);
      assert [ts[0]] + ts[1..] == ts;
    }
  }

  /** `members_to_json` and `members_from_json` are inverse: count, order, names and types survive. */
  lemma {:induction false} MembersRoundTrip(ms: seq<Member>)
    requires forall i :: 0 <= i < |ms| ==> CheckInvariant(ms[i].typ) && JsonRepresentable(ms[i].typ)
    ensures DecodeMembers(EncodeMembers(ms)) == Success(ms)
  {
    if ms != [] {
      RoundTrip(ms[0].typ);
      MembersRoundTrip(ms[1..]);
      assert EncodeMembers(ms)[1..] == EncodeMembers(ms[1..]);
      assert [ms[0]] + ms[1..] == ms;
    }
  }
}
