/**
 * The structural type variant `typeid_t` shared by the front end, the type
 * interner, the JSON type encoder and the bytecode value converter.
 */
module FloydTypes {

  /**
   * The base-type tags. Their order is the order in which the type interner
   * reserves its first table slots, so `BaseTypeIndex` is the slot number.
   */
  datatype BaseType =
    | BUndefined | BAny | BVoid
    | BBool | BInt | BDouble | BString | BJson
    | BTypeid
    | BStruct | BVector | BDict | BFunction
    | BUnresolved

  function BaseTypeIndex(b: BaseType): (r: nat)
    ensures r < 14
  {
    match b
    case BUndefined => 0
    case BAny => 1
    case BVoid => 2
    case BBool => 3
    case BInt => 4
    case BDouble => 5
    case BString => 6
    case BJson => 7
    case BTypeid => 8
    case BStruct => 9
    case BVector => 10
    case BDict => 11
    case BFunction => 12
    case BUnresolved => 13
  }

  datatype Purity = Pure | Impure

  /** How a function returning `any` computes its real return type; only "none" is told apart. */
  datatype DynReturn = DynNone | DynKind(kind: nat)

  /**
   * A type. A function's `parts` hold the return type first and then the
   * argument types.
   */
  datatype Type =
    | Undefined
    | Any
    | Void
    | Bool
    | Int
    | Double
    | String
    | Json
    | Typeid
    | Struct(def: StructDef)
    | Vector(element: Type)
    | Dict(value: Type)
    | Function(parts: seq<Type>, purity: Purity, dynReturn: DynReturn)
    | Unresolved(name: string)

  datatype Member = Member(typ: Type, name: string)

  datatype StructDef = StructDef(members: seq<Member>)

  function BaseTypeOf(t: Type): BaseType {
    match t
    case Undefined => BUndefined
    case Any => BAny
    case Void => BVoid
    case Bool => BBool
    case Int => BInt
    case Double => BDouble
    case String => BString
    case Json => BJson
    case Typeid => BTypeid
    case Struct(_) => BStruct
    case Vector(_) => BVector
    case Dict(_) => BDict
    case Function(_, _, _) => BFunction
    case Unresolved(_) => BUnresolved
  }

  predicate IsComposite(t: Type) {
    t.Struct? || t.Vector? || t.Dict? || t.Function?
  }

  /** The member types of a struct, in member order. */
  function MemberTypes(ms: seq<Member>): (r: seq<Type>)
    ensures |r| == |ms|
    ensures forall i :: 0 <= i < |ms| ==> r[i] == ms[i].typ
  {
    seq(|ms|, i requires 0 <= i < |ms| => ms[i].typ)
  }

  /** The direct component types of a type, in the order the interner visits them. */
  function Components(t: Type): (r: seq<Type>)
    ensures IsComposite(t) || r == []
  {
    match t
    case Struct(def) => MemberTypes(def.members)
    case Vector(e) => [e]
    case Dict(v) => [v]
    case Function(parts, _, _) => parts
    case _ => []
  }

  /** `u` occurs somewhere in the tree of `t`, `t` itself included. */
  predicate Occurs(u: Type, t: Type) {
    u == t ||
    match t
    case Struct(def) => exists i :: 0 <= i < |def.members| && Occurs(u, def.members[i].typ)
    case Vector(e) => Occurs(u, e)
    case Dict(v) => Occurs(u, v)
    case Function(parts, _, _) => exists i :: 0 <= i < |parts| && Occurs(u, parts[i])
    case _ => false
  }

  function Size(t: Type): nat {
    match t
    case Struct(def) => 1 + MembersSize(def.members)
    case Vector(e) => 1 + Size(e)
    case Dict(v) => 1 + Size(v)
    case Function(parts, _, _) => 1 + PartsSize(parts)
    case _ => 1
  }

  function PartsSize(ts: seq<Type>): nat {
    if ts == [] then 0 else Size(ts[0]) + PartsSize(ts[1..])
  }

  function MembersSize(ms: seq<Member>): nat {
    if ms == [] then 0 else Size(ms[0].typ) + MembersSize(ms[1..])
  }

  lemma {:induction false} PartsSizeBound(ts: seq<Type>, i: nat)
    requires i < |ts|
    ensures Size(ts[i]) <= PartsSize(ts)
    decreases i
  {
    if i > 0 {
      PartsSizeBound(ts[1..], i - 1);
    }
  }

  lemma {:induction false} MembersSizeBound(ms: seq<Member>, i: nat)
    requires i < |ms|
    ensures Size(ms[i].typ) <= MembersSize(ms)
    decreases i
  {
    if i > 0 {
      MembersSizeBound(ms[1..], i - 1);
    }
  }

  /** Every component is strictly smaller than the type that holds it. */
  lemma ComponentSmaller(t: Type, i: nat)
    requires i < |Components(t)|
    ensures Size(Components(t)[i]) < Size(t)
  {
    match t
    case Struct(def) => MembersSizeBound(def.members, i);
    case Function(parts, _, _) => PartsSizeBound(parts, i);
    case _ =>
  }

  /** A type occurring in `t` is never larger than `t`. */
  lemma {:induction false} OccursSize(u: Type, t: Type)
    requires Occurs(u, t)
    ensures Size(u) <= Size(t)
  {
    if u != t {
      match t
      case Struct(def) =>
        var i :| 0 <= i < |def.members| && Occurs(u, def.members[i].typ);
        OccursSize(u, def.members[i].typ);
        MembersSizeBound(def.members, i);
      case Vector(e) =>
        OccursSize(u, e);
      case Dict(v) =>
        OccursSize(u, v);
      case Function(parts, _, _) =>
        var i :| 0 <= i < |parts| && Occurs(u, parts[i]);
        OccursSize(u, parts[i]);
        PartsSizeBound(parts, i);
    }
  }

  /** Whatever occurs in a component of `t` occurs in `t`. */
  lemma OccursInComponent(u: Type, t: Type, i: nat)
    requires i < |Components(t)| && Occurs(u, Components(t)[i])
    ensures Occurs(u, t)
  {
    match t
    case Struct(def) =>
      assert Components(t)[i] == def.members[i].typ;
    case _ =>
  }

  /** A type never occurs inside one of its own components. */
  lemma NotInOwnComponent(t: Type, i: nat)
    requires i < |Components(t)|
    ensures !Occurs(t, Components(t)[i])
  {
    ComponentSmaller(t, i);
    if Occurs(t, Components(t)[i]) {
      OccursSize(t, Components(t)[i]);
    }
  }
}
