/**
 * Conversion between the interpreter's tree values (`value_t`) and its
 * bytecode values (`bc_value_t`). A bytecode value is a type plus a payload
 * that is either held inplace (bools, ints, doubles, function ids) or behind
 * an external handle (strings, JSON, type ids, structs, vectors, dicts).
 * Vectors and dicts come in two layouts: inplace elements, or one external
 * handle per element. Which layout a collection type uses is decided by two
 * policies whose definitions are not part of this model, so they are
 * parameters here.
 */
module BytecodeHelpers {
  import opened Wrappers
  import JsonValues
  import opened FloydTypes

  /** The 64-bit pattern of a double; arithmetic on doubles is not modelled. */
  type DoubleBits = bv64

  /** `value_t`: the tree form of a runtime value. */
  datatype Value =
    | VUndefined
    | VAny
    | VVoid
    | VBool(b: bool)
    | VInt(i: int)
    | VDouble(d: DoubleBits)
    | VString(s: string)
    | VJson(j: JsonValues.Json)
    | VTypeid(t: Type)
    | VStruct(def: StructDef, members: seq<Value>)
    | VVector(elementType: Type, elements: seq<Value>)
    | VDict(valueType: Type, entries: map<string, Value>)
    | VFunction(typ: Type, id: int)

  /** `bc_inplace_value_t`: a payload stored directly in the value. */
  datatype Inplace = INone | IBool(b: bool) | IInt(i: int) | IDouble(d: DoubleBits) | IFunction(id: int)

  /**
   * A bytecode payload. An external handle (`bc_external_handle_t`) is the
   * `External` payload it points to; a handle built from an inplace value
   * keeps that value.
   */
  datatype Pod = Inplace(inplace: Inplace) | External(external: ExternalBody)

  /** The bodies external handles point to. */
  datatype ExternalBody =
    | EString(s: string)
    | EJson(j: JsonValues.Json)
    | ETypeid(t: Type)
    | EStruct(members: seq<BcValue>)
    | EVectorInplace(inplaceElements: seq<Inplace>)
    | EVectorExternal(externalElements: seq<Pod>)
    | EDictInplace(inplaceValues: map<string, Inplace>)
    | EDictExternal(externalValues: map<string, Pod>)

  /** `bc_value_t`: a type and a payload. */
  datatype BcValue = BcValue(typ: Type, pod: Pod)

  /** The type a tree value carries (`value_t::get_type`). */
  function ValueType(v: Value): (r: Type)
    ensures IsComposite(r) <==> v.VStruct? || v.VVector? || v.VDict? || (v.VFunction? && IsComposite(v.typ))
  {
    match v
    case VUndefined => Undefined
    case VAny => Any
    case VVoid => Void
    case VBool(_) => Bool
    case VInt(_) => Int
    case VDouble(_) => Double
    case VString(_) => String
    case VJson(_) => Json
    case VTypeid(_) => Typeid
    case VStruct(def, _) => Struct(def)
    case VVector(e, _) => Vector(e)
    case VDict(v, _) => Dict(v)
    case VFunction(t, _) => t
  }

  /**
   * What the conversions rely on from `value_t::check_invariant`: every
   * vector element and dict value has the collection's declared type, and a
   * function value carries a function type.
   */
  predicate Homogeneous(v: Value) {
    match v
    case VStruct(_, ms) => forall i :: 0 <= i < |ms| ==> Homogeneous(ms[i])
    case VVector(e, es) => forall i :: 0 <= i < |es| ==> ValueType(es[i]) == e && Homogeneous(es[i])
    case VDict(t, m) => forall k :: k in m ==> ValueType(m[k]) == t && Homogeneous(m[k])
    case VFunction(t, _) => t.Function?
    case _ => true
  }

  //////////////////////////////////////////////////  value_to_bc

  /**
   * Which inplace-vector encoder: `AsWritten` calls `push_back` on the
   * immutable element vector and drops the vector it returns, so every
   * element is lost; `Corrected` keeps the returned vector, as the external
   * branch of the same function does.
   */
  datatype Dialect = AsWritten | Corrected

  /**
   * The body of a vector whose type selects inplace elements, built from
   * the converted elements. An element whose payload is not inplace cannot
   * be stored and fails.
   */
  function InplaceVectorBody(d: Dialect, bcs: seq<BcValue>): (r: Result<ExternalBody>)
    ensures r.Success? ==> r.value.EVectorInplace?
    ensures d == AsWritten ==> r == Success(EVectorInplace([]))
    ensures d == Corrected ==>
              (r.Success? <==> forall i :: 0 <= i < |bcs| ==> bcs[i].pod.Inplace?) &&
              (r.Success? ==>
                 |r.value.inplaceElements| == |bcs| &&
                 forall i :: 0 <= i < |bcs| ==> r.value.inplaceElements[i] == bcs[i].pod.inplace)
  {
    if d == AsWritten then Success(EVectorInplace([]))
    else if forall i :: 0 <= i < |bcs| ==> bcs[i].pod.Inplace? then
      Success(EVectorInplace(seq(|bcs|, i requires 0 <= i < |bcs| => bcs[i].pod.inplace)))
    else
      Failure("vector element has no inplace payload")
  }

  /**
   * `value_to_bc`. `vectorInplace` and `dictInplace` are
   * `encode_as_vector_w_inplace_elements` and `encode_as_dict_w_inplace_values`.
   * Encoding a dict whose type selects inplace values is unsupported and
   * fails; so does putting an element whose payload is external into an
   * inplace vector.
   */
  function ValueToBc(d: Dialect, v: Value, vectorInplace: Type -> bool, dictInplace: Type -> bool): (r: Result<BcValue>)
    ensures r.Success? ==> r.value.typ == ValueType(v)
    decreases v, 1
  {
    match v
    case VUndefined => Success(BcValue(Undefined, Inplace(INone)))
    case VAny => Success(BcValue(Any, Inplace(INone)))
    case VVoid => Success(BcValue(Void, Inplace(INone)))
    case VBool(b) => Success(BcValue(Bool, Inplace(IBool(b))))
    case VInt(i) => Success(BcValue(Int, Inplace(IInt(i))))
    case VDouble(d) => Success(BcValue(Double, Inplace(IDouble(d))))
    case VString(s) => Success(BcValue(String, External(EString(s))))
    case VJson(j) => Success(BcValue(Json, External(EJson(j))))
    case VTypeid(t) => Success(BcValue(Typeid, External(ETypeid(t))))
    case VStruct(def, ms) =>
      var bcs :- ValuesToBcs(d, ms, vectorInplace, dictInplace);
      Success(BcValue(Struct(def), External(EStruct(bcs))))
    case VVector(e, es) =>
      var bcs :- ValuesToBcs(d, es, vectorInplace, dictInplace);
      if vectorInplace(Vector(e)) then
        var body :- InplaceVectorBody(d, bcs);
        Success(BcValue(Vector(e), External(body)))
      else
        Success(BcValue(Vector(e), External(EVectorExternal(seq(|bcs|, i requires 0 <= i < |bcs| => bcs[i].pod)))))
    case VDict(t, m) =>
      if dictInplace(Dict(t)) then
        Failure("dict with inplace values is not supported")
      else if forall k :: k in m ==> ValueToBc(d, m[k], vectorInplace, dictInplace).Success? then
        Success(BcValue(Dict(t), External(EDictExternal(
          map k | k in m :: ValueToBc(d, m[k], vectorInplace, dictInplace).value.pod))))
      else
        Failure("dict value cannot be encoded")
    case VFunction(t, id) => Success(BcValue(t, Inplace(IFunction(id))))
  }

  /** `values_to_bcs`: converts each value in order, failing if any conversion fails. */
  function ValuesToBcs(d: Dialect, vs: seq<Value>, vectorInplace: Type -> bool, dictInplace: Type -> bool): (r: Result<seq<BcValue>>)
    ensures r.Success? <==> forall i :: 0 <= i < |vs| ==> ValueToBc(d, vs[i], vectorInplace, dictInplace).Success?
    ensures r.Success? ==>
              |r.value| == |vs| &&
              forall i :: 0 <= i < |vs| ==> ValueToBc(d, vs[i], vectorInplace, dictInplace) == Success(r.value[i])
    decreases vs, 0
  {
    if vs == [] then Success([])
    else
      var head :- ValueToBc(d, vs[0], vectorInplace, dictInplace);
      var tail :- ValuesToBcs(d, vs[1..], vectorInplace, dictInplace);
      assert forall i :: 1 <= i < |vs| ==> vs[i] == vs[1..][i - 1];
      Success([head] + tail)
  }

  /** The loop of `values_to_bcs`, appending one converted value per step. */
  method ValuesToBcsLoop(d: Dialect, vs: seq<Value>, vectorInplace: Type -> bool, dictInplace: Type -> bool) returns (r: Result<seq<BcValue>>)
    ensures r == ValuesToBcs(d, vs, vectorInplace, dictInplace)
  {
    var acc: seq<BcValue> := [];
    var i := 0;
    while i < |vs|
      invariant 0 <= i <= |vs|
      invariant |acc| == i
      invariant forall k :: 0 <= k < i ==> ValueToBc(d, vs[k], vectorInplace, dictInplace) == Success(acc[k])
    {
      var bc := ValueToBc(d, vs[i], vectorInplace, dictInplace);
      if bc.Failure? {
        ValuesToBcsFirstFailure(d, vs, i, vectorInplace, dictInplace);
        return Failure(bc.error);
      }
      acc := acc + [bc.value];
      i := i + 1;
    }
    r := Success(acc);
    ValuesToBcsUnique(d, vs, acc, vectorInplace, dictInplace);
  }

  /** `values_to_bcs` throws the exception of the first value that cannot be converted. */
  lemma {:induction false} ValuesToBcsFirstFailure(d: Dialect, vs: seq<Value>, i: nat, vectorInplace: Type -> bool, dictInplace: Type -> bool)
    requires i < |vs| && ValueToBc(d, vs[i], vectorInplace, dictInplace).Failure?
    requires forall k :: 0 <= k < i ==> ValueToBc(d, vs[k], vectorInplace, dictInplace).Success?
    ensures ValuesToBcs(d, vs, vectorInplace, dictInplace) == Failure(ValueToBc(d, vs[i], vectorInplace, dictInplace).error)
  {
    if i > 0 {
      var head := ValueToBc(d, vs[0], vectorInplace, dictInplace);
      assert head.Success?;
      assert forall k :: 0 <= k < i - 1 ==> vs[1..][k] == vs[k + 1];
      assert vs[1..][i - 1] == vs[i];
      ValuesToBcsFirstFailure(d, vs[1..], i - 1, vectorInplace, dictInplace);
    }
  }

  /** A converted sequence is determined by the conversions of its elements. */
  lemma ValuesToBcsUnique(d: Dialect, vs: seq<Value>, bcs: seq<BcValue>, vectorInplace: Type -> bool, dictInplace: Type -> bool)
    requires |bcs| == |vs|
    requires forall k :: 0 <= k < |vs| ==> ValueToBc(d, vs[k], vectorInplace, dictInplace) == Success(bcs[k])
    ensures ValuesToBcs(d, vs, vectorInplace, dictInplace) == Success(bcs)
  {
    var r := ValuesToBcs(d, vs, vectorInplace, dictInplace);
    assert r.Success?;
    assert r.value == bcs;
  }

  //////////////////////////////////////////////////  bc_to_value

  /**
   * An inplace payload read back as a value of type `t`. Only the base types
   * whose payload lives inplace can be read; anything else means the payload
   * does not match the type, which `bc_value_t::check_invariant` asserts
   * against.
   */
  function InplaceToValue(t: Type, p: Inplace): (r: Result<Value>)
    ensures r.Success? ==> ValueType(r.value) == t && Homogeneous(r.value)
  {
    match t
    case Undefined => Success(VUndefined)
    case Any => Success(VAny)
    case Void => Success(VVoid)
    case Bool => if p.IBool? then Success(VBool(p.b)) else Failure("payload does not match type")
    case Int => if p.IInt? then Success(VInt(p.i)) else Failure("payload does not match type")
    case Double => if p.IDouble? then Success(VDouble(p.d)) else Failure("payload does not match type")
    case Function(_, _, _) =>
      if p.IFunction? then Success(VFunction(t, p.id)) else Failure("payload does not match type")
    case Unresolved(_) => Failure("unsupported base type")
    case _ => Failure("payload does not match type")
  }

  /**
   * `bc_to_value` of the bytecode value with type `t` and payload `pod`. The
   * layout of a vector or dict is chosen with the same policies as in
   * `ValueToBc`. A type with any other base type throws.
   */
  function BcToValue(t: Type, pod: Pod, vectorInplace: Type -> bool, dictInplace: Type -> bool): (r: Result<Value>)
    ensures r.Success? ==> ValueType(r.value) == t && Homogeneous(r.value)
    decreases pod
  {
    if t.Unresolved? then Failure("unsupported base type")
    else if pod.Inplace? then InplaceToValue(t, pod.inplace)
    else
      match t
      case String => if pod.external.EString? then Success(VString(pod.external.s)) else Failure("payload does not match type")
      case Json => if pod.external.EJson? then Success(VJson(pod.external.j)) else Failure("payload does not match type")
      case Typeid => if pod.external.ETypeid? then Success(VTypeid(pod.external.t)) else Failure("payload does not match type")
      case Struct(def) =>
        if pod.external.EStruct? then
          var ms := pod.external.members;
          if forall i :: 0 <= i < |ms| ==> BcToValue(ms[i].typ, ms[i].pod, vectorInplace, dictInplace).Success? then
            Success(VStruct(def, seq(|ms|, i requires 0 <= i < |ms| => BcToValue(ms[i].typ, ms[i].pod, vectorInplace, dictInplace).value)))
          else Failure("struct member cannot be decoded")
        else Failure("payload does not match type")
      case Vector(e) =>
        if vectorInplace(t) then
          if pod.external.EVectorInplace? then
            var ps := pod.external.inplaceElements;
            if forall i :: 0 <= i < |ps| ==> InplaceToValue(e, ps[i]).Success? then
              Success(VVector(e, seq(|ps|, i requires 0 <= i < |ps| => InplaceToValue(e, ps[i]).value)))
            else Failure("vector element cannot be decoded")
          else Failure("payload does not match type")
        else
          if pod.external.EVectorExternal? then
            var ps := pod.external.externalElements;
            if forall i :: 0 <= i < |ps| ==> BcToValue(e, ps[i], vectorInplace, dictInplace).Success? then
              Success(VVector(e, seq(|ps|, i requires 0 <= i < |ps| => BcToValue(e, ps[i], vectorInplace, dictInplace).value)))
            else Failure("vector element cannot be decoded")
          else Failure("payload does not match type")
      case Dict(vt) =>
        if dictInplace(t) then
          if pod.external.EDictInplace? then
            var m := pod.external.inplaceValues;
            if forall k :: k in m ==> InplaceToValue(vt, m[k]).Success? then
              Success(VDict(vt, map k | k in m :: InplaceToValue(vt, m[k]).value))
            else Failure("dict value cannot be decoded")
          else Failure("payload does not match type")
        else
          if pod.external.EDictExternal? then
            var m := pod.external.externalValues;
            if forall k :: k in m ==> BcToValue(vt, m[k], vectorInplace, dictInplace).Success? then
              Success(VDict(vt, map k | k in m :: BcToValue(vt, m[k], vectorInplace, dictInplace).value))
            else Failure("dict value cannot be decoded")
          else Failure("payload does not match type")
      case _ => Failure("payload does not match type")
  }

  //////////////////////////////////////////////////  Properties

  /** Decoding a struct payload whose members each decode gives the struct of the decoded members. */
  lemma StructRoundTrip(def: StructDef, ms: seq<Value>, bcs: seq<BcValue>, vectorInplace: Type -> bool, dictInplace: Type -> bool)
    requires |bcs| == |ms|
    requires forall i :: 0 <= i < |ms| ==> BcToValue(bcs[i].typ, bcs[i].pod, vectorInplace, dictInplace) == Success(ms[i])
    ensures BcToValue(Struct(def), External(EStruct(bcs)), vectorInplace, dictInplace) == Success(VStruct(def, ms))
  {
    var r := BcToValue(Struct(def), External(EStruct(bcs)), vectorInplace, dictInplace);
    assert r.Success? && r.value.members == ms;
  }

  lemma VectorRoundTrip(e: Type, es: seq<Value>, bcs: seq<BcValue>, vectorInplace: Type -> bool, dictInplace: Type -> bool)
    requires |bcs| == |es|
    requires forall i :: 0 <= i < |es| ==> BcToValue(e, bcs[i].pod, vectorInplace, dictInplace) == Success(es[i])
    requires ValueToBc(Corrected, VVector(e, es), vectorInplace, dictInplace).Success?
    requires ValuesToBcs(Corrected, es, vectorInplace, dictInplace) == Success(bcs)
    ensures var bc := ValueToBc(Corrected, VVector(e, es), vectorInplace, dictInplace).value;
            BcToValue(bc.typ, bc.pod, vectorInplace, dictInplace) == Success(VVector(e, es))
  {
    var bc := ValueToBc(Corrected, VVector(e, es), vectorInplace, dictInplace).value;
    var r := BcToValue(bc.typ, bc.pod, vectorInplace, dictInplace);
    if vectorInplace(Vector(e)) {
      assert forall i :: 0 <= i < |es| ==> bcs[i].pod.Inplace?;
      assert forall i :: 0 <= i < |es| ==> InplaceToValue(e, bcs[i].pod.inplace) == Success(es[i]);
      assert r.Success? && r.value.elements == es;
    } else {
      assert r.Success? && r.value.elements == es;
    }
  }

  lemma DictRoundTrip(t: Type, m: map<string, Value>, vectorInplace: Type -> bool, dictInplace: Type -> bool)
    requires ValueToBc(Corrected, VDict(t, m), vectorInplace, dictInplace).Success?
    requires forall k :: k in m ==>
      BcToValue(t, ValueToBc(Corrected, m[k], vectorInplace, dictInplace).value.pod, vectorInplace, dictInplace) == Success(m[k])
    ensures var bc := ValueToBc(Corrected, VDict(t, m), vectorInplace, dictInplace).value;
            BcToValue(bc.typ, bc.pod, vectorInplace, dictInplace) == Success(VDict(t, m))
  {
    var bc := ValueToBc(Corrected, VDict(t, m), vectorInplace, dictInplace).value;
    var r := BcToValue(bc.typ, bc.pod, vectorInplace, dictInplace);
    assert r.Success? && r.value.entries == m;
  }

  /**
   * Round trip: a value of consistent type that the corrected `value_to_bc`
   * can convert comes back unchanged from `bc_to_value`, whatever the layout
   * policies, as long as both directions use the same ones.
   */
  lemma {:induction false} RoundTrip(v: Value, vectorInplace: Type -> bool, dictInplace: Type -> bool)
    requires Homogeneous(v) && ValueToBc(Corrected, v, vectorInplace, dictInplace).Success?
    ensures var bc := ValueToBc(Corrected, v, vectorInplace, dictInplace).value;
            BcToValue(bc.typ, bc.pod, vectorInplace, dictInplace) == Success(v)
    decreases v
  {
    match v
    case VStruct(def, ms) =>
      var bcs := ValuesToBcs(Corrected, ms, vectorInplace, dictInplace).value;
      forall i | 0 <= i < |ms|
        ensures BcToValue(bcs[i].typ, bcs[i].pod, vectorInplace, dictInplace) == Success(ms[i])
      {
        RoundTrip(ms[i], vectorInplace, dictInplace);
      }
      StructRoundTrip(def, ms, bcs, vectorInplace, dictInplace);
    case VVector(e, es) =>
      var bcs := ValuesToBcs(Corrected, es, vectorInplace, dictInplace).value;
      forall i | 0 <= i < |es|
        ensures BcToValue(e, bcs[i].pod, vectorInplace, dictInplace) == Success(es[i])
      {
        RoundTrip(es[i], vectorInplace, dictInplace);
      }
      VectorRoundTrip(e, es, bcs, vectorInplace, dictInplace);
    case VDict(t, m) =>
      forall k | k in m
        ensures BcToValue(t, ValueToBc(Corrected, m[k], vectorInplace, dictInplace).value.pod, vectorInplace, dictInplace) == Success(m[k])
      {
        RoundTrip(m[k], vectorInplace, dictInplace);
      }
      DictRoundTrip(t, m, vectorInplace, dictInplace);
    case _ =>
  }

  /**
   * Every scalar kind converts to the bytecode value of the same kind:
   * bools, ints, doubles, functions and the payload-less kinds inplace,
   * strings, JSON and type ids behind an external handle.
   */
  lemma ScalarsConvert(d: Dialect, v: Value, vectorInplace: Type -> bool, dictInplace: Type -> bool)
    requires !v.VStruct? && !v.VVector? && !v.VDict?
    ensures ValueToBc(d, v, vectorInplace, dictInplace).Success?
    ensures ValueToBc(d, v, vectorInplace, dictInplace).value.typ == ValueType(v)
    ensures ValueToBc(d, v, vectorInplace, dictInplace).value.pod.External? <==> v.VString? || v.VJson? || v.VTypeid?
  {
  }

  /** Struct conversion keeps member count and order in both directions. */
  lemma StructMembersInOrder(d: Dialect, def: StructDef, ms: seq<Value>, bcs: seq<BcValue>, vectorInplace: Type -> bool, dictInplace: Type -> bool)
    ensures ValueToBc(d, VStruct(def, ms), vectorInplace, dictInplace).Success? <==>
            forall i :: 0 <= i < |ms| ==> ValueToBc(d, ms[i], vectorInplace, dictInplace).Success?
    ensures ValueToBc(d, VStruct(def, ms), vectorInplace, dictInplace).Success? ==>
              var body := ValueToBc(d, VStruct(def, ms), vectorInplace, dictInplace).value.pod.external;
              body.EStruct? && |body.members| == |ms| &&
              forall i :: 0 <= i < |ms| ==> body.members[i] == ValueToBc(d, ms[i], vectorInplace, dictInplace).value
    ensures BcToValue(Struct(def), External(EStruct(bcs)), vectorInplace, dictInplace).Success? ==>
              var r := BcToValue(Struct(def), External(EStruct(bcs)), vectorInplace, dictInplace).value;
              r.VStruct? && |r.members| == |bcs| &&
              forall i :: 0 <= i < |bcs| ==> BcToValue(bcs[i].typ, bcs[i].pod, vectorInplace, dictInplace) == Success(r.members[i])
  {
  }

  /**
   * Both directions pick the vector layout with the same policy. Without
   * inplace elements every element becomes exactly one external handle, in
   * order; with them the corrected encoder keeps the element count and the
   * encoder as written keeps no element at all. Decoding keeps the count.
   */
  lemma VectorLayout(d: Dialect, e: Type, es: seq<Value>, body: ExternalBody, vectorInplace: Type -> bool, dictInplace: Type -> bool)
    ensures ValueToBc(d, VVector(e, es), vectorInplace, dictInplace).Success? ==>
              var b := ValueToBc(d, VVector(e, es), vectorInplace, dictInplace).value.pod.external;
              (b.EVectorInplace? <==> vectorInplace(Vector(e))) &&
              (b.EVectorInplace? ==> |b.inplaceElements| == (if d == Corrected then |es| else 0)) &&
              (b.EVectorExternal? ==>
                 |b.externalElements| == |es| &&
                 forall i :: 0 <= i < |es| ==> b.externalElements[i] == ValueToBc(d, es[i], vectorInplace, dictInplace).value.pod)
    ensures BcToValue(Vector(e), External(body), vectorInplace, dictInplace).Success? ==>
              (body.EVectorInplace? <==> vectorInplace(Vector(e))) &&
              var r := BcToValue(Vector(e), External(body), vectorInplace, dictInplace).value;
              r.VVector? && r.elementType == e &&
              |r.elements| == (if body.EVectorInplace? then |body.inplaceElements| else |body.externalElements|)
  {
  }

  /** Dict conversion keeps the key set, converting each value on its own. */
  lemma DictKeysKept(d: Dialect, t: Type, m: map<string, Value>, body: ExternalBody, vectorInplace: Type -> bool, dictInplace: Type -> bool)
    ensures ValueToBc(d, VDict(t, m), vectorInplace, dictInplace).Success? ==>
              var b := ValueToBc(d, VDict(t, m), vectorInplace, dictInplace).value.pod.external;
              b.EDictExternal? && b.externalValues.Keys == m.Keys &&
              forall k :: k in m ==> b.externalValues[k] == ValueToBc(d, m[k], vectorInplace, dictInplace).value.pod
    ensures BcToValue(Dict(t), External(body), vectorInplace, dictInplace).Success? ==>
              (body.EDictInplace? <==> dictInplace(Dict(t))) &&
              var r := BcToValue(Dict(t), External(body), vectorInplace, dictInplace).value;
              r.VDict? &&
              r.entries.Keys == (if body.EDictInplace? then body.inplaceValues.Keys else body.externalValues.Keys)
  {
  }

  /** Encoding a dict whose type selects inplace values is the unsupported path and fails. */
  lemma InplaceDictUnsupported(d: Dialect, t: Type, m: map<string, Value>, vectorInplace: Type -> bool, dictInplace: Type -> bool)
    requires dictInplace(Dict(t))
    ensures ValueToBc(d, VDict(t, m), vectorInplace, dictInplace).Failure?
  {
  }

  /** A bytecode value whose type has no value form (an unresolved identifier) throws. */
  lemma UnsupportedBaseTypeFails(name: string, pod: Pod, vectorInplace: Type -> bool, dictInplace: Type -> bool)
    ensures BcToValue(Unresolved(name), pod, vectorInplace, dictInplace).Failure?
  {
  }

  /**
   * As written, a vector whose type selects inplace elements is encoded with
   * no elements, so it decodes to the empty vector whatever it held.
   */
  lemma InplaceVectorAsWrittenComesBackEmpty(e: Type, es: seq<Value>, vectorInplace: Type -> bool, dictInplace: Type -> bool)
    requires vectorInplace(Vector(e)) && ValueToBc(AsWritten, VVector(e, es), vectorInplace, dictInplace).Success?
    ensures var bc := ValueToBc(AsWritten, VVector(e, es), vectorInplace, dictInplace).value;
            bc.pod == External(EVectorInplace([])) &&
            BcToValue(bc.typ, bc.pod, vectorInplace, dictInplace) == Success(VVector(e, []))
  {
    var bc := ValueToBc(AsWritten, VVector(e, es), vectorInplace, dictInplace).value;
    var r := BcToValue(bc.typ, bc.pod, vectorInplace, dictInplace);
    assert r.Success? && r.value.elements == [];
  }

  /**
   * The vector `[1]` of ints under an inplace layout: as written it comes
   * back as `[]`, corrected it comes back as `[1]`.
   */
  lemma InplaceVectorAsWrittenLosesElements()
    ensures var vi := (t: Type) => true;
            var di := (t: Type) => false;
            var v := VVector(Int, [VInt(1)]);
            ValueToBc(AsWritten, v, vi, di).Success? &&
            BcToValue(Vector(Int), ValueToBc(AsWritten, v, vi, di).value.pod, vi, di) == Success(VVector(Int, [])) &&
            BcToValue(Vector(Int), ValueToBc(Corrected, v, vi, di).value.pod, vi, di) == Success(v)
  {
    var vi := (t: Type) => true;
    var di := (t: Type) => false;
    var v := VVector(Int, [VInt(1)]);
    var bcs := [BcValue(Int, Inplace(IInt(1)))];
    assert ValueToBc(AsWritten, VInt(1), vi, di) == Success(bcs[0]);
    assert ValueToBc(Corrected, VInt(1), vi, di) == Success(bcs[0]);
    ValuesToBcsUnique(AsWritten, [VInt(1)], bcs, vi, di);
    ValuesToBcsUnique(Corrected, [VInt(1)], bcs, vi, di);
    InplaceVectorAsWrittenComesBackEmpty(Int, [VInt(1)], vi, di);
    RoundTrip(v, vi, di);
  }
}
