/**
 * The host functions the LLVM back end calls for strings, vectors and
 * dicts. Every operation is copy-on-write: it allocates a new C string
 * buffer, element array or dict body and leaves its arguments unchanged.
 * Argument types are checked at run time; a failed check throws.
 */
module LlvmRuntime {
  import opened Wrappers
  import opened FloydTypes
  import opened FloydSyntax
  import opened RuntimeValues
  import JsonValues

  //////////////////////////////////////////////////  Comparisons

  /**
   * The comparison-operator mapping shared by `compare_strings` and
   * `compare_values`: `op` is an `expression_type` code and `cmp` a
   * three-way comparison result; the answer is 1 when the relation holds
   * and 0 otherwise. Any other operator throws.
   */
  function CompareOp(op: int, cmp: int): (r: Result<int>)
    ensures r.Success? <==> FromCode(op).Some? && IsComparison(FromCode(op).value)
    ensures r.Success? ==> r.value == 0 || r.value == 1
  {
    var e := FromCode(op);
    if e == Some(ComparisonSmallerOrEqual) then Success(if cmp <= 0 then 1 else 0)
    else if e == Some(ComparisonSmaller) then Success(if cmp < 0 then 1 else 0)
    else if e == Some(ComparisonLargerOrEqual) then Success(if cmp >= 0 then 1 else 0)
    else if e == Some(ComparisonLarger) then Success(if cmp > 0 then 1 else 0)
    else if e == Some(LogicalEqual) then Success(if cmp == 0 then 1 else 0)
    else if e == Some(LogicalNonequal) then Success(if cmp != 0 then 1 else 0)
    else Failure("unsupported comparison operator")
  }

  /** The relation each comparison operator decides, stated on the sign of `cmp`. */
  predicate Holds(op: ExpressionType, cmp: int)
    requires IsComparison(op)
  {
    match op
    case ComparisonSmallerOrEqual => cmp <= 0
    case ComparisonSmaller => cmp < 0
    case ComparisonLargerOrEqual => cmp >= 0
    case ComparisonLarger => cmp > 0
    case LogicalEqual => cmp == 0
    case LogicalNonequal => cmp != 0
  }

  /** Each comparison code yields 1 exactly when its relation holds. */
  lemma CompareOpDecides(op: ExpressionType, cmp: int)
    requires IsComparison(op)
    ensures CompareOp(Code(op), cmp) == Success(if Holds(op, cmp) then 1 else 0)
  {
    CodesConsecutive(op, Code(op));
  }

  /** `strcmp`: the sign of the first differing byte, a shorter prefix comparing smaller. */
  function Strcmp(a: seq<Byte>, b: seq<Byte>): (r: int)
    ensures -1 <= r <= 1
    ensures r == 0 <==> a == b
  {
    if a == [] && b == [] then 0
    else if a == [] then -1
    else if b == [] then 1
    else if a[0] < b[0] then -1
    else if a[0] > b[0] then 1
    else
      var r := Strcmp(a[1..], b[1..]);
      assert a == [a[0]] + a[1..] && b == [b[0]] + b[1..];
      r
  }

  /** Swapping the operands of `strcmp` flips the sign. */
  lemma {:induction false} StrcmpAntisymmetric(a: seq<Byte>, b: seq<Byte>)
    ensures Strcmp(b, a) == -Strcmp(a, b)
  {
    if a != [] && b != [] && a[0] == b[0] {
      StrcmpAntisymmetric(a[1..], b[1..]);
    }
  }

  /** `floyd_runtime__compare_strings`. */
  function CompareStrings(op: int, lhs: seq<Byte>, rhs: seq<Byte>): Result<int> {
    CompareOp(op, Strcmp(lhs, rhs))
  }

  /** String `==` and `!=` decide equality of contents, and `<` is `>` with the operands swapped. */
  lemma CompareStringsMeaning(lhs: seq<Byte>, rhs: seq<Byte>)
    ensures CompareStrings(Code(LogicalEqual), lhs, rhs) == Success(if lhs == rhs then 1 else 0)
    ensures CompareStrings(Code(LogicalNonequal), lhs, rhs) == Success(if lhs != rhs then 1 else 0)
    ensures CompareStrings(Code(ComparisonSmaller), lhs, rhs) == CompareStrings(Code(ComparisonLarger), rhs, lhs)
  {
    CompareOpDecides(LogicalEqual, Strcmp(lhs, rhs));
    CompareOpDecides(LogicalNonequal, Strcmp(lhs, rhs));
    CompareOpDecides(ComparisonSmaller, Strcmp(lhs, rhs));
    CompareOpDecides(ComparisonLarger, Strcmp(rhs, lhs));
    StrcmpAntisymmetric(lhs, rhs);
  }

  /**
   * `floyd_runtime__compare_values`: the three-way deep comparison of the
   * two values is computed by code that is not part of this model, so it
   * is the parameter `cmp`.
   */
  function CompareValues(op: int, cmp: int): Result<int> {
    CompareOp(op, cmp)
  }

  //////////////////////////////////////////////////  Buffers

  /** A fresh C-string buffer holding `s` and its terminating NUL. */
  method NewCString(s: seq<Byte>) returns (buf: array<Byte>)
    ensures fresh(buf) && buf[..] == s + [0]
  {
    buf := new Byte[|s| + 1];
    var i := 0;
    while i < |s|
      invariant 0 <= i <= |s|
      invariant buf[..i] == s[..i]
    {
      buf[i] := s[i];
      i := i + 1;
    }
    buf[|s|] := 0;
    assert buf[..] == buf[..|s|] + [buf[|s|]];
  }

  /** A fresh element array holding `s`. */
  method NewVector(s: seq<Word>) returns (v: array<Word>)
    ensures fresh(v) && v[..] == s
  {
    v := new Word[|s|];
    ghost var blank := v[..];
    CopyElements(v, 0, s, 0, |s|);
    OverwriteFits(blank, 0, s[0..|s|]);
    assert s[0..|s|] == s;
  }

  //////////////////////////////////////////////////  Concatenation

  /** `floyd_runtime__concatunate_strings`: a new buffer with `lhs` then `rhs`, NUL-terminated. */
  method ConcatStrings(lhs: seq<Byte>, rhs: seq<Byte>) returns (buf: array<Byte>)
    requires IsCString(lhs) && IsCString(rhs)
    ensures fresh(buf) && buf[..] == lhs + rhs + [0]
    ensures CStr(buf[..]) == lhs + rhs
  {
    buf := new Byte[|lhs| + |rhs| + 1];
    var i := 0;
    while i < |lhs|
      invariant 0 <= i <= |lhs|
      invariant buf[..i] == lhs[..i]
    {
      buf[i] := lhs[i];
      i := i + 1;
    }
    var j := 0;
    while j < |rhs|
      invariant 0 <= j <= |rhs|
      invariant buf[..|lhs|] == lhs
      invariant buf[|lhs|..|lhs| + j] == rhs[..j]
    {
      buf[|lhs| + j] := rhs[j];
      j := j + 1;
    }
    buf[|lhs| + |rhs|] := 0;
    assert buf[..] == buf[..|lhs|] + buf[|lhs|..|lhs| + |rhs|] + [buf[|lhs| + |rhs|]];
    assert IsCString(lhs + rhs);
    CStrOfTerminated(lhs + rhs, []);
    assert lhs + rhs + [0] + [] == buf[..];
  }

  /** `floyd_runtime__concatunate_vectors`: a new array with the elements of `lhs` and then of `rhs`. */
  method ConcatVectors(lhs: array<Word>, rhs: array<Word>) returns (r: array<Word>)
    ensures fresh(r) && r[..] == lhs[..] + rhs[..]
  {
    r := new Word[lhs.Length + rhs.Length];
    var i := 0;
    while i < lhs.Length
      invariant 0 <= i <= lhs.Length
      invariant r[..i] == lhs[..i]
    {
      r[i] := lhs[i];
      i := i + 1;
    }
    var j := 0;
    while j < rhs.Length
      invariant 0 <= j <= rhs.Length
      invariant r[..lhs.Length] == lhs[..]
      invariant r[lhs.Length..lhs.Length + j] == rhs[..j]
    {
      r[lhs.Length + j] := rhs[j];
      j := j + 1;
    }
    assert r[..] == r[..lhs.Length] + r[lhs.Length..];
  }

  //////////////////////////////////////////////////  Dicts

  /** `floyd_runtime__store_dict`: a new dict body with the entries of `dict` and `key` set to `value`. */
  method StoreDict(dict: DictBody, key: seq<Byte>, value: Word) returns (d2: DictBody)
    ensures fresh(d2) && d2.entries == dict.entries[key := value]
  {
    d2 := new DictBody(dict.entries);
    d2.entries := d2.entries[key := value];
  }

  /** `floyd_runtime__lookup_dict`: the value stored under `key`; a missing key throws. */
  function LookupDict(dict: DictBody, key: seq<Byte>): (r: Result<Word>)
    reads dict
    ensures r.Success? <==> key in dict.entries
  {
    if key in dict.entries then Success(dict.entries[key]) else Failure("key not found")
  }

  /** After a store, looking up the stored key gives the stored value and every other key is unaffected. */
  lemma LookupAfterStore(dict: DictBody, d2: DictBody, key: seq<Byte>, value: Word, other: seq<Byte>)
    requires d2.entries == dict.entries[key := value]
    ensures LookupDict(d2, key) == Success(value)
    ensures other != key ==> LookupDict(d2, other) == LookupDict(dict, other)
  {
  }

  /** `floyd_host_function__erase`: on a dict, a new body without `key`; any other collection throws. */
  method Erase(arg0: Arg, type0: Type, key: seq<Byte>) returns (r: Result<DictBody>)
    requires Agrees(arg0, type0)
    ensures r.Success? <==> type0.Dict?
    ensures r.Success? ==> fresh(r.value) && r.value.entries == arg0.d.entries - {key}
  {
    if type0.Dict? {
      var d2 := new DictBody(arg0.d.entries);
      d2.entries := d2.entries - {key};
      return Success(d2);
    } else {
      return Failure("not implemented");
    }
  }

  /** `floyd_funcdef__exists`: 1 when `key` is in the dict, 0 when not; any other collection throws. */
  function Exists(arg0: Arg, type0: Type, key: seq<Byte>): (r: Result<int>)
    requires Agrees(arg0, type0)
    reads if arg0.DictArg? then {arg0.d} else {}
  {
    if type0.Dict? then Success(if key in arg0.d.entries then 1 else 0)
    else Failure("not implemented")
  }

  /** `exists` answers 1 exactly when `lookup_dict` would find the key. */
  lemma ExistsMatchesLookup(d: DictBody, t: Type, key: seq<Byte>)
    requires t.Dict?
    ensures Exists(DictArg(d), t, key) == Success(if LookupDict(d, key).Success? then 1 else 0)
  {
  }

  /** An erased key no longer exists and a stored key does; other keys keep their answer. */
  lemma ExistsAfterEraseAndStore(d: DictBody, erased: DictBody, stored: DictBody, t: Type, key: seq<Byte>, value: Word, other: seq<Byte>)
    requires t.Dict?
    requires erased.entries == d.entries - {key}
    requires stored.entries == d.entries[key := value]
    ensures Exists(DictArg(erased), t, key) == Success(0)
    ensures Exists(DictArg(stored), t, key) == Success(1)
    ensures other != key ==> Exists(DictArg(erased), t, other) == Exists(DictArg(d), t, other)
    ensures other != key ==> Exists(DictArg(stored), t, other) == Exists(DictArg(d), t, other)
  {
  }

  //////////////////////////////////////////////////  Results and type helpers

  /** What a host function returns in its wide return value: a new string buffer, element array or dict. */
  datatype Collection = StrBuf(buf: array<Byte>) | VecBuf(elements: array<Word>) | DictBuf(dict: DictBody)

  /** `get_function_args`: the argument types of a function type, after its return type. */
  function FunctionArgs(t: Type): (r: seq<Type>)
    requires t.Function?
    ensures |t.parts| > 0 ==> t.parts == [t.parts[0]] + r
  {
    if |t.parts| == 0 then [] else t.parts[1..]
  }

  /** `static_cast<uint32_t>` of a non-negative 64-bit integer: its low 32 bits. */
  function U32(x: Int64): (r: nat)
    requires x >= 0
    ensures r < 0x1_0000_0000 && (x as int < 0x1_0000_0000 ==> r == x as int)
  {
    x as int % 0x1_0000_0000
  }

  //////////////////////////////////////////////////  filter, map, reduce

  /** The elements of `s` that `keep` accepts, in their order. */
  function FilterSpec(s: seq<Word>, keep: Word -> bool): (r: seq<Word>)
    ensures |r| <= |s|
  {
    if s == [] then []
    else FilterSpec(s[..|s| - 1], keep) + (if keep(s[|s| - 1]) then [s[|s| - 1]] else [])
  }

  /** A filtered vector holds exactly the elements of the input that are kept. */
  lemma {:induction false} FilterMembership(s: seq<Word>, keep: Word -> bool, x: Word)
    ensures x in FilterSpec(s, keep) <==> x in s && keep(x)
  {
    if s != [] {
      FilterMembership(s[..|s| - 1], keep, x);
      assert s == s[..|s| - 1] + [s[|s| - 1]];
    }
  }

  /** Filtering with a predicate that keeps everything returns the input unchanged. */
  lemma {:induction false} FilterKeepAll(s: seq<Word>, keep: Word -> bool)
    requires forall i :: 0 <= i < |s| ==> keep(s[i])
    ensures FilterSpec(s, keep) == s
  {
    if s != [] {
      FilterKeepAll(s[..|s| - 1], keep);
    }
  }

  /**
   * `floyd_funcdef__filter`: a new vector holding, in order, the elements
   * for which the callback answers true. The argument types are not checked.
   */
  method Filter(v: array<Word>, keep: Word -> bool) returns (r: array<Word>)
    ensures fresh(r) && r[..] == FilterSpec(v[..], keep)
  {
    var acc: seq<Word> := [];
    var i := 0;
    while i < v.Length
      invariant 0 <= i <= v.Length
      invariant acc == FilterSpec(v[..i], keep)
    {
      assert v[..i + 1][..i] == v[..i];
      if keep(v[i]) {
        acc := acc + [v[i]];
      }
      i := i + 1;
    }
    assert v[..v.Length] == v[..];
    r := NewVector(acc);
  }

  /** Each element replaced by the callback's answer for it. */
  function MapSpec(s: seq<Word>, f: Word -> Word): (r: seq<Word>)
    ensures |r| == |s| && forall i :: 0 <= i < |s| ==> r[i] == f(s[i])
  {
    seq(|s|, i requires 0 <= i < |s| => f(s[i]))
  }

  /** Mapping twice is mapping once with the composed callback. */
  lemma MapComposes(s: seq<Word>, f: Word -> Word, g: Word -> Word)
    ensures MapSpec(MapSpec(s, f), g) == MapSpec(s, x => g(f(x)))
  {
  }

  /** The argument checks of `map`, in the order they are made; `None` when all pass. */
  function MapCheck(type0: Type, type1: Type): Option<string> {
    if !type0.Vector? then Some("map() arg 1 must be a vector.")
    else if !type1.Function? then Some("map() requires start and end to be integers.")
    else if |FunctionArgs(type1)| != 1 then Some("map() function f requries 1 argument.")
    else if FunctionArgs(type1)[0] != type0.element then Some("map() function f must accept collection elements as its argument.")
    else None
  }

  /** `floyd_funcdef__map`: after the argument checks, a new vector of the callback's results. */
  method Map(arg0: Arg, type0: Type, f: Word -> Word, type1: Type) returns (r: Result<array<Word>>)
    requires Agrees(arg0, type0)
    ensures r.Failure? <==> MapCheck(type0, type1).Some?
    ensures r.Failure? ==> r.error == MapCheck(type0, type1).value
    ensures r.Success? ==> arg0.VecArg? && fresh(r.value) && r.value[..] == MapSpec(arg0.v[..], f)
  {
    var check := MapCheck(type0, type1);
    if check.Some? {
      return Failure(check.value);
    }
    var v := arg0.v;
    var result := new Word[v.Length];
    var i := 0;
    while i < v.Length
      invariant 0 <= i <= v.Length
      invariant forall k :: 0 <= k < i ==> result[k] == f(v[k])
    {
      result[i] := f(v[i]);
      i := i + 1;
    }
    return Success(result);
  }

  /** A left fold: the callback combines the accumulator with each element in turn, starting from `init`. */
  function ReduceSpec(s: seq<Word>, init: Word, f: (Word, Word) -> Word): Word {
    if s == [] then init else f(ReduceSpec(s[..|s| - 1], init, f), s[|s| - 1])
  }

  /** Reducing a concatenation reduces the second part starting from the result of the first. */
  lemma {:induction false} ReduceAppend(a: seq<Word>, b: seq<Word>, init: Word, f: (Word, Word) -> Word)
    ensures ReduceSpec(a + b, init, f) == ReduceSpec(b, ReduceSpec(a, init, f), f)
  {
    if b != [] {
      assert (a + b)[..|a + b| - 1] == a + b[..|b| - 1];
      ReduceAppend(a, b[..|b| - 1], init, f);
    } else {
      assert a + b == a;
    }
  }

  /** `floyd_funcdef__reduce`: the fold of the vector, after the single parameter check. */
  method Reduce(arg0: Arg, type0: Type, init: Word, f: (Word, Word) -> Word, type2: Type) returns (r: Result<Word>)
    requires Agrees(arg0, type0)
    ensures r.Failure? <==> !type0.Vector? || !type2.Function? || |FunctionArgs(type2)| != 2
    ensures r.Failure? ==> r.error == "reduce() parameter error."
    ensures r.Success? ==> arg0.VecArg? && r.value == ReduceSpec(arg0.v[..], init, f)
  {
    if !type0.Vector? || !type2.Function? || |FunctionArgs(type2)| != 2 {
      return Failure("reduce() parameter error.");
    }
    var v := arg0.v;
    var acc := init;
    var i := 0;
    while i < v.Length
      invariant 0 <= i <= v.Length
      invariant acc == ReduceSpec(v[..i], init, f)
    {
      assert v[..i + 1][..i] == v[..i];
      acc := f(acc, v[i]);
      i := i + 1;
    }
    assert v[..v.Length] == v[..];
    return Success(acc);
  }

  //////////////////////////////////////////////////  find

  /** `needle` occurs in `s` starting at position `k`. */
  predicate OccursAt(s: seq<Byte>, needle: seq<Byte>, k: int) {
    0 <= k && k + |needle| <= |s| && s[k..k + |needle|] == needle
  }

  /** The first occurrence of `needle` in `s` at or after `from`, or -1. */
  function FindFrom(s: seq<Byte>, needle: seq<Byte>, from: nat): (r: int)
    ensures r == -1 || (from <= r && OccursAt(s, needle, r))
    ensures forall k :: from <= k && (r == -1 || k < r) ==> !OccursAt(s, needle, k)
    decreases |s| - from
  {
    if from + |needle| > |s| then -1
    else if s[from..from + |needle|] == needle then from
    else FindFrom(s, needle, from + 1)
  }

  /**
   * `floyd_funcdef__find__string`, `std::string::find`: the position of the
   * first occurrence of `needle`, or -1 when there is none.
   */
  function FindString(s: seq<Byte>, needle: seq<Byte>): (r: int)
    ensures r == -1 || OccursAt(s, needle, r)
    ensures forall k :: 0 <= k && (r == -1 || k < r) ==> !OccursAt(s, needle, k)
  {
    FindFrom(s, needle, 0)
  }

  /** The empty string is found at position 0, and a string is found in itself at 0. */
  lemma FindStringEdges(s: seq<Byte>)
    ensures FindString(s, []) == 0
    ensures FindString(s, s) == 0
  {
    assert OccursAt(s, [], 0);
    assert OccursAt(s, s, 0);
  }

  /** A string is found at the join of a concatenation when it does not occur earlier. */
  lemma FindStringAfterPrefix(a: seq<Byte>, b: seq<Byte>)
    requires forall k :: 0 <= k < |a| ==> !OccursAt(a + b, b, k)
    ensures FindString(a + b, b) == |a|
  {
    assert (a + b)[|a|..|a| + |b|] == b;
    assert OccursAt(a + b, b, |a|);
  }

  /**
   * `floyd_funcdef__find`. On a string the argument must be a string; on a
   * vector it must have the element type, and the answer is the first
   * position holding an equal runtime value, or -1. Other collections throw.
   */
  method Find(arg0: Arg, type0: Type, arg1: Arg, type1: Type) returns (r: Result<int>)
    requires Agrees(arg0, type0) && Agrees(arg1, type1)
    requires type0.Vector? && type1 == type0.element ==> arg1.WordArg?
    ensures type0.String? && type1.String? ==> r == Success(FindString(arg0.s, arg1.s))
    ensures type0.String? && !type1.String? ==> r == Failure("find(string) requires argument 2 to be a string.")
    ensures type0.Vector? && type1 != type0.element ==> r == Failure("find([]) requires argument 2 to be of vector's element type.")
    ensures type0.Vector? && type1 == type0.element ==>
              r.Success? && -1 <= r.value < arg0.v.Length &&
              (r.value == -1 <==> arg1.w !in arg0.v[..]) &&
              (r.value >= 0 ==> arg0.v[r.value] == arg1.w && arg1.w !in arg0.v[..r.value])
    ensures !type0.String? && !type0.Vector? ==> r.Failure?
  {
    if type0.String? {
      if !type1.String? {
        return Failure("find(string) requires argument 2 to be a string.");
      }
      return Success(FindString(arg0.s, arg1.s));
    } else if type0.Vector? {
      if type1 != type0.element {
        return Failure("find([]) requires argument 2 to be of vector's element type.");
      }
      var v := arg0.v;
      var w := arg1.w;
      var i := 0;
      while i < v.Length
        invariant 0 <= i <= v.Length
        invariant w !in v[..i]
      {
        if v[i] == w {
          return Success(i);
        }
        assert v[..i + 1] == v[..i] + [v[i]];
        i := i + 1;
      }
      assert v[..v.Length] == v[..];
      return Success(-1);
    } else {
      return Failure("unsupported collection");
    }
  }

  //////////////////////////////////////////////////  push_back

  /**
   * `floyd_funcdef__push_back`: a string gains the character `(char)value`
   * and a vector gains the element; any other collection throws. The type
   * of the pushed value is asserted, not checked.
   */
  method PushBack(arg0: Arg, type0: Type, arg1: Arg, type1: Type) returns (r: Result<Collection>)
    requires Agrees(arg0, type0) && Agrees(arg1, type1)
    requires type0.String? ==> type1.Int?
    requires type0.Vector? ==> type1 == type0.element && arg1.WordArg?
    ensures type0.String? ==>
              r.Success? && r.value.StrBuf? && fresh(r.value.buf) &&
              r.value.buf[..] == arg0.s + [CharOf(arg1.w), 0]
    ensures type0.Vector? ==>
              r.Success? && r.value.VecBuf? && fresh(r.value.elements) &&
              r.value.elements[..] == arg0.v[..] + [arg1.w]
    ensures !type0.String? && !type0.Vector? ==> r.Failure?
  {
    if type0.String? {
      var buf := NewCString(arg0.s + [CharOf(arg1.w)]);
      return Success(StrBuf(buf));
    } else if type0.Vector? {
      var vs := arg0.v;
      var v2 := new Word[vs.Length + 1];
      var i := 0;
      while i < vs.Length
        invariant 0 <= i <= vs.Length
        invariant v2[..i] == vs[..i]
      {
        v2[i] := vs[i];
        i := i + 1;
      }
      v2[vs.Length] := arg1.w;
      assert v2[..] == v2[..vs.Length] + [v2[vs.Length]];
      return Success(VecBuf(v2));
    } else {
      return Failure("unsupported collection");
    }
  }

  /**
   * The string a pushed character leaves behind: one longer, ending in the
   * character, unless the character is NUL, which `strlen` then stops at.
   */
  lemma PushBackString(s: seq<Byte>, w: Word)
    requires IsCString(s)
    ensures CharOf(w) != 0 ==> CStr(s + [CharOf(w), 0]) == s + [CharOf(w)]
    ensures CharOf(w) == 0 ==> CStr(s + [CharOf(w), 0]) == s
  {
    if CharOf(w) != 0 {
      CStrOfTerminated(s + [CharOf(w)], []);
      assert s + [CharOf(w), 0] == s + [CharOf(w)] + [0] + [];
    } else {
      CStrOfTerminated(s, [0]);
      assert s + [CharOf(w), 0] == s + [0] + [0];
    }
  }

  //////////////////////////////////////////////////  replace and subset

  /** The clamped range both `replace` and `subset` use: the end capped at the length, the start at the end. */
  function ClampEnd(end: nat, len: nat): (r: nat)
    ensures r <= len && r <= end && (r == end || r == len)
  {
    if end < len then end else len
  }

  function ClampStart(start: nat, end: nat, len: nat): (r: nat)
    ensures r <= ClampEnd(end, len) && r <= start
  {
    var e := ClampEnd(end, len);
    if start < e then start else e
  }

  /** `s` with its clamped range `[start, end)` replaced by `rep`. */
  function Splice<T>(s: seq<T>, start: nat, end: nat, rep: seq<T>): seq<T> {
    s[..ClampStart(start, end, |s|)] + rep + s[ClampEnd(end, |s|)..]
  }

  /** The clamped range `[start, end)` of `s`. */
  function Slice<T>(s: seq<T>, start: nat, end: nat): (r: seq<T>)
    ensures |r| <= |s|
  {
    s[ClampStart(start, end, |s|)..ClampEnd(end, |s|)]
  }

  /** Replacing a range with what it holds changes nothing. */
  lemma SpliceOwnSlice<T>(s: seq<T>, start: nat, end: nat)
    ensures Splice(s, start, end, Slice(s, start, end)) == s
  {
    var a := ClampStart(start, end, |s|);
    var b := ClampEnd(end, |s|);
    assert s == s[..a] + s[a..b] + s[b..];
  }

  /**
   * After a replacement the replacement reads back at the clamped start,
   * the part before it is kept, and the length grows by the replacement's
   * length less the clamped range's.
   */
  lemma SliceOfSplice<T>(s: seq<T>, start: nat, end: nat, rep: seq<T>)
    ensures var a := ClampStart(start, end, |s|);
            var r := Splice(s, start, end, rep);
            Slice(r, a, a + |rep|) == rep && r[..a] == s[..a] &&
            |r| == |s| - |Slice(s, start, end)| + |rep|
  {
    var a := ClampStart(start, end, |s|);
    var r := Splice(s, start, end, rep);
    assert r[a..a + |rep|] == rep;
  }

  /** `floyd_funcdef__replace__string`: a new buffer holding the spliced string. */
  method ReplaceString(s: seq<Byte>, start: nat, end: nat, rep: seq<Byte>) returns (buf: array<Byte>)
    requires IsCString(s) && IsCString(rep)
    ensures fresh(buf) && buf[..] == Splice(s, start, end, rep) + [0]
    ensures CStr(buf[..]) == Splice(s, start, end, rep)
  {
    var sp := Splice(s, start, end, rep);
    assert IsCString(sp);
    buf := NewCString(sp);
    CStrOfTerminated(sp, []);
    assert sp + [0] + [] == buf[..];
  }

  /**
   * The vector branch of `floyd_funcdef__replace` as written: the
   * replacement is copied to position `|rep|` instead of the clamped start,
   * over a new array whose initial contents are `blank`. Writes past the end
   * of the array are dropped here; in the program they are out of bounds.
   */
  function ReplaceVectorAsWritten(blank: seq<Word>, s: seq<Word>, start: nat, end: nat, rep: seq<Word>): (r: seq<Word>)
    requires |blank| == ClampStart(start, end, |s|) + |rep| + (|s| - ClampEnd(end, |s|))
    ensures |r| == |Splice(s, start, end, rep)|
  {
    var end2 := ClampEnd(end, |s|);
    var start2 := ClampStart(start, end, |s|);
    var a := Overwrite(blank, 0, s[..start2]);
    var b := Overwrite(a, |rep|, rep);
    Overwrite(b, start2 + |rep|, s[end2..])
  }

  /** Replacing position 2 of `[1, 2, 3]` by `[9]` as written loses the 2, whatever the new array held. */
  lemma ReplaceVectorAsWrittenMisplaces(blank: seq<Word>)
    requires |blank| == 4
    ensures ReplaceVectorAsWritten(blank, [1, 2, 3], 2, 2, [9]) != Splice([1, 2, 3], 2, 2, [9])
    ensures Splice([1, 2, 3], 2, 2, [9]) == [1, 2, 9, 3]
  {
    assert ReplaceVectorAsWritten(blank, [1, 2, 3], 2, 2, [9])[1] == 9;
    assert Splice([1, 2, 3], 2, 2, [9])[1] == 2;
  }

  /** The vector branch of `floyd_funcdef__replace` with the replacement copied to the clamped start. */
  method ReplaceVector(v: array<Word>, start: nat, end: nat, rep: array<Word>) returns (r: array<Word>)
    ensures fresh(r) && r[..] == Splice(v[..], start, end, rep[..])
  {
    var end2 := ClampEnd(end, v.Length);
    var start2 := ClampStart(start, end, v.Length);
    r := new Word[start2 + rep.Length + (v.Length - end2)];
    ghost var r0 := r[..];
    ghost var before, middle, after := v[..][..start2], rep[..], v[..][end2..];
    CopyElements(r, 0, v[..], 0, start2);
    assert v[..][0..start2] == before;
    CopyElements(r, start2, rep[..], 0, rep.Length);
    assert rep[..][0..rep.Length] == middle;
    CopyElements(r, start2 + rep.Length, v[..], end2, v.Length - end2);
    assert v[..][end2..end2 + (v.Length - end2)] == after;
    ThreeCopies(r0, before, middle, after);
  }

  /** Copying three parts one after the other into a buffer of their total length gives their concatenation. */
  lemma ThreeCopies<T>(r0: seq<T>, a: seq<T>, m: seq<T>, b: seq<T>)
    requires |r0| == |a| + |m| + |b|
    ensures Overwrite(Overwrite(Overwrite(r0, 0, a), |a|, m), |a| + |m|, b) == a + m + b
  {
    var r1 := Overwrite(r0, 0, a);
    var r2 := Overwrite(r1, |a|, m);
    OverwriteFits(r0, 0, a);
    OverwriteFits(r1, |a|, m);
    OverwriteFits(r2, |a| + |m|, b);
    assert r1[..|a|] == a;
    assert r2[..|a| + |m|] == a + m;
  }

  /**
   * `floyd_funcdef__replace`: the range checks and the collection-type check
   * come first; a string or vector then gets its clamped range replaced, the
   * vector's bounds first truncated to 32 bits.
   */
  method Replace(arg0: Arg, type0: Type, start: Int64, end: Int64, arg3: Arg, type3: Type) returns (r: Result<Collection>)
    requires Agrees(arg0, type0) && Agrees(arg3, type3)
    ensures start < 0 || end < 0 ==> r == Failure("replace() requires start and end to be non-negative.")
    ensures 0 <= end < start ==> r == Failure("replace() requires start <= end.")
    ensures 0 <= start <= end && type3 != type0 ==> r == Failure("replace() requires argument 4 to be same type of collection.")
    ensures 0 <= start <= end && type3 == type0 && type0.String? ==>
              r.Success? && r.value.StrBuf? && fresh(r.value.buf) &&
              r.value.buf[..] == Splice(arg0.s, start as nat, end as nat, arg3.s) + [0]
    ensures 0 <= start <= end && type3 == type0 && type0.Vector? ==>
              r.Success? && r.value.VecBuf? && fresh(r.value.elements) &&
              r.value.elements[..] == Splice(arg0.v[..], U32(start), U32(end), arg3.v[..])
    ensures 0 <= start <= end && type3 == type0 && !type0.String? && !type0.Vector? ==> r.Failure?
  {
    if start < 0 || end < 0 {
      return Failure("replace() requires start and end to be non-negative.");
    }
    if start > end {
      return Failure("replace() requires start <= end.");
    }
    if type3 != type0 {
      return Failure("replace() requires argument 4 to be same type of collection.");
    }
    if type0.String? {
      var buf := ReplaceString(arg0.s, start as nat, end as nat, arg3.s);
      return Success(StrBuf(buf));
    } else if type0.Vector? {
      var v2 := ReplaceVector(arg0.v, U32(start), U32(end), arg3.v);
      return Success(VecBuf(v2));
    } else {
      return Failure("unsupported collection");
    }
  }

  /**
   * `floyd_funcdef__subset`: the clamped range of a string or vector as a
   * new collection; negative bounds throw, and so does a vector range of
   * `INT32_MAX` elements or more.
   */
  method Subset(arg0: Arg, type0: Type, start: Int64, end: Int64) returns (r: Result<Collection>)
    requires Agrees(arg0, type0)
    ensures start < 0 || end < 0 ==> r == Failure("subset() requires start and end to be non-negative.")
    ensures start >= 0 && end >= 0 && type0.String? ==>
              r.Success? && r.value.StrBuf? && fresh(r.value.buf) &&
              r.value.buf[..] == Slice(arg0.s, start as nat, end as nat) + [0]
    ensures start >= 0 && end >= 0 && type0.Vector? ==>
              (r.Success? <==> |Slice(arg0.v[..], start as nat, end as nat)| < 0x7fff_ffff) &&
              (r.Success? ==> r.value.VecBuf? && fresh(r.value.elements) &&
                              r.value.elements[..] == Slice(arg0.v[..], start as nat, end as nat))
    ensures start >= 0 && end >= 0 && !type0.String? && !type0.Vector? ==> r.Failure?
  {
    if start < 0 || end < 0 {
      return Failure("subset() requires start and end to be non-negative.");
    }
    if type0.String? {
      var buf := NewCString(Slice(arg0.s, start as nat, end as nat));
      return Success(StrBuf(buf));
    } else if type0.Vector? {
      var vec := arg0.v;
      var end2 := ClampEnd(end as nat, vec.Length);
      var start2 := ClampStart(start as nat, end as nat, vec.Length);
      var len2 := end2 - start2;
      if len2 >= 0x7fff_ffff {
        return Failure("subset range too long");
      }
      var v2 := new Word[len2];
      var i := 0;
      while i < len2
        invariant 0 <= i <= len2
        invariant v2[..i] == vec[start2..start2 + i]
      {
        v2[i] := vec[start2 + i];
        i := i + 1;
      }
      assert v2[..] == v2[..len2];
      assert vec[start2..start2 + len2] == vec[..][start2..end2];
      return Success(VecBuf(v2));
    } else {
      return Failure("unsupported collection");
    }
  }

  //////////////////////////////////////////////////  size

  /** The objects a host function argument's contents live in. */
  function Footprint(a: Arg): set<object> {
    match a
    case VecArg(v) => {v}
    case DictArg(d) => {d}
    case _ => {}
  }

  /**
   * `floyd_funcdef__size`: characters of a string, elements of a vector,
   * entries of a dict, and for a JSON value the size of an object, array or
   * string; anything else throws.
   */
  function Size(arg0: Arg, type0: Type): (r: Result<int>)
    requires Agrees(arg0, type0)
    reads Footprint(arg0)
    ensures r.Success? ==> r.value >= 0
    ensures r.Success? <==>
              (type0.String? || type0.Vector? || type0.Dict? ||
               (type0.Json? && (arg0.j.JObject? || arg0.j.JArray? || arg0.j.JString?)))
  {
    if type0.String? then Success(|arg0.s|)
    else if type0.Json? then
      match arg0.j
      case JObject(fields) => Success(|fields|)
      case JArray(elements) => Success(|elements|)
      case JString(s) => Success(|s|)
      case _ => Failure("Calling size() on unsupported type of value.")
    else if type0.Vector? then Success(arg0.v.Length)
    else if type0.Dict? then Success(|arg0.d.entries|)
    else Failure("unsupported collection")
  }

  /** How the collection operations change `size`: concatenation adds, push_back adds one, subset and replace follow their ranges. */
  lemma SizeOfResults(a: array<Word>, b: array<Word>, t: Type, start: nat, end: nat, w: Word)
    requires t.Vector?
    ensures var ab := a[..] + b[..];
            |ab| == Size(VecArg(a), t).value + Size(VecArg(b), t).value &&
            |a[..] + [w]| == Size(VecArg(a), t).value + 1 &&
            |Slice(a[..], start, end)| == ClampEnd(end, a.Length) - ClampStart(start, end, a.Length) &&
            |Splice(a[..], start, end, b[..])| == Size(VecArg(a), t).value - |Slice(a[..], start, end)| + Size(VecArg(b), t).value
  {
  }

  //////////////////////////////////////////////////  update

  /**
   * `floyd_funcdef__update` on a string, vector or dict: a copy with one
   * position or key set. A string position takes `(char)value`; a position
   * outside the collection throws, as do argument types that do not fit.
   */
  method Update(arg0: Arg, type0: Type, arg1: Arg, type1: Type, arg2: Arg, type2: Type) returns (r: Result<Collection>)
    requires Agrees(arg0, type0) && Agrees(arg1, type1) && Agrees(arg2, type2)
    requires !type0.Struct?
    requires (type0.Vector? || type0.Dict?) && !type2.String? ==> arg2.WordArg?
    ensures type0.String? && (!type1.Int? || !type2.Int?) ==> r.Failure?
    ensures type0.String? && type1.Int? && type2.Int? ==>
              if 0 <= arg1.w as int < |arg0.s| then
                r.Success? && r.value.StrBuf? && fresh(r.value.buf) &&
                r.value.buf[..] == arg0.s[arg1.w as int := CharOf(arg2.w)] + [0]
              else r == Failure("Position argument to update() is outside collection span.")
    ensures type0.Vector? && !type1.Int? ==> r.Failure?
    ensures type0.Vector? && type1.Int? && type0.element != type2 ==>
              r == Failure("New value's type must match vector's element type.")
    ensures type0.Vector? && type1.Int? && type0.element == type2 && !type2.String? ==>
              if 0 <= arg1.w as int < arg0.v.Length then
                r.Success? && r.value.VecBuf? && fresh(r.value.elements) &&
                r.value.elements[..] == arg0.v[..][arg1.w as int := arg2.w]
              else r == Failure("Position argument to update() is outside collection span.")
    ensures type0.Dict? && !type1.String? ==> r.Failure?
    ensures type0.Dict? && type1.String? && !type2.String? ==>
              r.Success? && r.value.DictBuf? && fresh(r.value.dict) &&
              r.value.dict.entries == arg0.d.entries[arg1.s := arg2.w]
    ensures !type0.String? && !type0.Vector? && !type0.Dict? ==> r.Failure?
  {
    if type0.String? {
      if !type1.Int? || !type2.Int? {
        return Failure("update() argument types");
      }
      var index := arg1.w as int;
      if index < 0 || index >= |arg0.s| {
        return Failure("Position argument to update() is outside collection span.");
      }
      var buf := NewCString(arg0.s);
      buf[index] := CharOf(arg2.w);
      assert buf[..] == arg0.s[index := CharOf(arg2.w)] + [0];
      return Success(StrBuf(buf));
    } else if type0.Vector? {
      if !type1.Int? {
        return Failure("update() argument types");
      }
      if type0.element != type2 {
        return Failure("New value's type must match vector's element type.");
      }
      var vec := arg0.v;
      var index := arg1.w as int;
      if index < 0 || index >= vec.Length {
        return Failure("Position argument to update() is outside collection span.");
      }
      if type2.String? {
        return Failure("string elements are not modelled");
      }
      var result := NewVector(vec[..]);
      result[index] := arg2.w;
      return Success(VecBuf(result));
    } else if type0.Dict? {
      if !type1.String? {
        return Failure("update() argument types");
      }
      if type2.String? {
        return Failure("string values are not modelled");
      }
      var d2 := StoreDict(arg0.d, arg1.s, arg2.w);
      return Success(DictBuf(d2));
    } else {
      return Failure("unsupported collection");
    }
  }
}
