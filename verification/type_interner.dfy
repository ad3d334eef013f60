/**
 * The type interner: an append-only table of structurally distinct types.
 * Its first 15 slots are reserved so that a scalar's slot number equals its
 * base-type number; every later entry is a composite type whose component
 * types were interned before it.
 */
module TypeInterner {
  import opened Wrappers
  import opened FloydTypes

  /**
   * `itype_t`: the index of the type's entry, its base type and, for vectors
   * and dicts, the base type of the element or value type.
   */
  datatype IType = IType(lookupIndex: int, baseType: BaseType, elementBaseType: BaseType)

  /**
   * The entry the constructor puts in reserved slot `j`: the scalar whose
   * base-type number is `j`, the empty unresolved identifier at 13, and an
   * undefined placeholder in the other slots.
   */
  function ReservedEntry(j: nat): Type
    requires j < 15
  {
    if j == 1 then Any
    else if j == 2 then Void
    else if j == 3 then Bool
    else if j == 4 then Int
    else if j == 5 then Double
    else if j == 6 then String
    else if j == 7 then Json
    else if j == 8 then Typeid
    else if j == 13 then Unresolved("")
    else Undefined
  }

  /** The table as the constructor leaves it. */
  function InitialTable(): (r: seq<Type>)
    ensures |r| == 15 && forall j :: 0 <= j < 15 ==> r[j] == ReservedEntry(j)
  {
    seq(15, j requires 0 <= j < 15 => ReservedEntry(j))
  }

  /** `tab` starts with the reserved slots. */
  predicate ReservedPrefix(tab: seq<Type>) {
    |tab| >= 15 && forall j :: 0 <= j < 15 ==> tab[j] == ReservedEntry(j)
  }

  /** A scalar other than `undefined` sits only in the reserved slot numbered by its base type. */
  lemma ReservedEntryIndex(j: nat, t: Type)
    requires j < 15 && ReservedEntry(j) == t && !IsComposite(t) && !t.Undefined? && !t.Unresolved?
    ensures j == BaseTypeIndex(BaseTypeOf(t))
  {
  }

  /** The types the interner can hold: every unresolved identifier inside is the empty one. */
  predicate Internable(t: Type) {
    match t
    case Unresolved(name) => name == ""
    case Struct(def) => forall i :: 0 <= i < |def.members| ==> Internable(def.members[i].typ)
    case Vector(e) => Internable(e)
    case Dict(v) => Internable(v)
    case Function(parts, _, _) => forall i :: 0 <= i < |parts| ==> Internable(parts[i])
    case _ => true
  }

  lemma InternableComponents(t: Type)
    requires IsComposite(t)
    ensures Internable(t) <==> forall k :: 0 <= k < |Components(t)| ==> Internable(Components(t)[k])
  {
    match t
    case Struct(def) =>
      assert forall k :: 0 <= k < |def.members| ==> Components(t)[k] == def.members[k].typ;
    case Vector(e) =>
      assert Components(t)[0] == e && |Components(t)| == 1;
    case Dict(v) =>
      assert Components(t)[0] == v && |Components(t)| == 1;
    case Function(parts, _, _) =>
      assert Components(t) == parts;
  }

  /** `check_invariant`: the reserved slots hold the scalars at their base-type numbers and the placeholders. */
  predicate ReservedSlotsHold(tab: seq<Type>) {
    |tab| >= 14 &&
    tab[0] == Undefined && tab[1] == Any && tab[2] == Void &&
    tab[3] == Bool && tab[4] == Int && tab[5] == Double && tab[6] == String && tab[7] == Json &&
    tab[8] == Typeid &&
    tab[9].Undefined? && tab[10].Undefined? && tab[11].Undefined? && tab[12].Undefined? &&
    tab[13] == Unresolved("")
  }

  /**
   * The table invariant, stated the way the table is built: the reserved
   * slots, followed by appends that each add an internable composite type
   * that is not yet present and whose component types already are.
   */
  predicate ValidTable(tab: seq<Type>)
    decreases |tab|
  {
    if |tab| <= 15 then tab == InitialTable()
    else ValidTable(tab[..|tab| - 1]) && NewEntryOk(tab[..|tab| - 1], tab[|tab| - 1])
  }

  /** What `make_new_itype_recursive` guarantees about the entry it appends to `tab`. */
  predicate NewEntryOk(tab: seq<Type>, t: Type) {
    IsComposite(t) && Internable(t) && t !in tab &&
    forall k :: 0 <= k < |Components(t)| ==> Components(t)[k] in tab
  }

  lemma {:induction false} ValidPrefix(tab: seq<Type>, n: nat)
    requires ValidTable(tab) && 15 <= n <= |tab|
    ensures ValidTable(tab[..n])
    decreases |tab|
  {
    if n < |tab| {
      ValidPrefix(tab[..|tab| - 1], n);
      assert tab[..|tab| - 1][..n] == tab[..n];
    } else {
      assert tab[..n] == tab;
    }
  }

  /** A valid table starts with the reserved slots. */
  lemma {:induction false} ValidReserved(tab: seq<Type>)
    requires ValidTable(tab)
    ensures ReservedPrefix(tab)
  {
    ValidPrefix(tab, 15);
    assert forall j :: 0 <= j < 15 ==> tab[j] == tab[..15][j];
  }

  /** `check_invariant` holds for every valid table. */
  lemma CheckInvariantHolds(tab: seq<Type>)
    requires ValidTable(tab)
    ensures ReservedSlotsHold(tab) && tab[14] == Undefined
  {
    ValidReserved(tab);
    assert tab[0] == ReservedEntry(0) && tab[1] == ReservedEntry(1) && tab[2] == ReservedEntry(2);
    assert tab[3] == ReservedEntry(3) && tab[4] == ReservedEntry(4) && tab[5] == ReservedEntry(5);
    assert tab[6] == ReservedEntry(6) && tab[7] == ReservedEntry(7) && tab[8] == ReservedEntry(8);
    assert tab[9] == ReservedEntry(9) && tab[10] == ReservedEntry(10) && tab[11] == ReservedEntry(11);
    assert tab[12] == ReservedEntry(12) && tab[13] == ReservedEntry(13) && tab[14] == ReservedEntry(14);
  }

  /** Every entry of a valid table is internable. */
  lemma EntryInternable(tab: seq<Type>, i: nat)
    requires ValidTable(tab) && i < |tab|
    ensures Internable(tab[i])
  {
    ValidReserved(tab);
    if i >= 15 {
      ValidPrefix(tab, i + 1);
      assert tab[..i + 1][..i] == tab[..i];
    }
  }

  /** Every entry after the reserved slots is a composite whose components sit at smaller indices. */
  lemma ChildrenBeforeParent(tab: seq<Type>, i: nat)
    requires ValidTable(tab) && 15 <= i < |tab|
    ensures IsComposite(tab[i])
    ensures forall k :: 0 <= k < |Components(tab[i])| ==> Components(tab[i])[k] in tab[..i]
    ensures forall k :: 0 <= k < |Components(tab[i])| ==> IndexOf(tab, Components(tab[i])[k]) < i
  {
    ValidPrefix(tab, i + 1);
    assert tab[..i + 1][..i] == tab[..i];
    forall k | 0 <= k < |Components(tab[i])|
      ensures IndexOf(tab, Components(tab[i])[k]) < i
    {
      IndexOfPrefix(tab[..i], tab, Components(tab[i])[k]);
    }
  }

  /** No entry after the reserved slots equals an earlier entry: the table deduplicates. */
  lemma EntriesDistinct(tab: seq<Type>, j: nat, i: nat)
    requires ValidTable(tab) && j < i < |tab| && 15 <= i
    ensures tab[j] != tab[i]
  {
    ValidPrefix(tab, i + 1);
    assert tab[..i + 1][..i] == tab[..i];
    assert tab[..i][j] == tab[j];
  }

  /** The index of the first entry equal to `t` (what `std::find_if` finds). */
  function IndexOf(tab: seq<Type>, t: Type): (r: nat)
    requires t in tab
    ensures r < |tab| && tab[r] == t && t !in tab[..r]
  {
    if tab[0] == t then 0
    else
      var r := 1 + IndexOf(tab[1..], t);
      assert tab[..r] == [tab[0]] + tab[1..][..r - 1];
      r
  }

  lemma IndexOfUnique(tab: seq<Type>, t: Type, i: nat)
    requires i < |tab| && tab[i] == t && t !in tab[..i]
    ensures IndexOf(tab, t) == i
  {
  }

  /** Appending entries never changes where an existing type is found. */
  lemma IndexOfPrefix(tab: seq<Type>, tab2: seq<Type>, t: Type)
    requires t in tab && tab <= tab2
    ensures t in tab2 && IndexOf(tab2, t) == IndexOf(tab, t)
  {
    var i := IndexOf(tab, t);
    assert tab2[i] == t;
    assert tab2[..i] == tab[..i];
    IndexOfUnique(tab2, t, i);
  }

  /** `make_itype_from_parts`. */
  function MakeITypeFromParts(lookupIndex: int, t: Type): IType {
    match t
    case Struct(_) => IType(lookupIndex, BStruct, BUndefined)
    case Vector(e) => IType(lookupIndex, BVector, BaseTypeOf(e))
    case Dict(v) => IType(lookupIndex, BDict, BaseTypeOf(v))
    case Function(_, _, _) => IType(lookupIndex, BFunction, BUndefined)
    case _ => IType(BaseTypeIndex(BaseTypeOf(t)), BaseTypeOf(t), BUndefined)
  }

  /**
   * A handle records the type's base type, the element or value base type of
   * a vector or dict, and, for a composite, the index it was given.
   */
  lemma HandleContents(i: int, t: Type)
    ensures MakeITypeFromParts(i, t).baseType == BaseTypeOf(t)
    ensures t.Vector? ==> MakeITypeFromParts(i, t).elementBaseType == BaseTypeOf(t.element)
    ensures t.Dict? ==> MakeITypeFromParts(i, t).elementBaseType == BaseTypeOf(t.value)
    ensures !t.Vector? && !t.Dict? ==> MakeITypeFromParts(i, t).elementBaseType == BUndefined
    ensures IsComposite(t) ==> MakeITypeFromParts(i, t).lookupIndex == i
  {
  }

  /** A valid table holds every internable scalar at the slot numbered by its base type. */
  lemma ScalarsAtReservedSlots(tab: seq<Type>, t: Type)
    requires ValidTable(tab) && !IsComposite(t) && Internable(t)
    ensures t in tab && IndexOf(tab, t) == BaseTypeIndex(BaseTypeOf(t))
    ensures MakeITypeFromParts(IndexOf(tab, t), t) == IType(BaseTypeIndex(BaseTypeOf(t)), BaseTypeOf(t), BUndefined)
  {
    ValidReserved(tab);
    var i := BaseTypeIndex(BaseTypeOf(t));
    if t.Undefined? {
      assert tab[0] == ReservedEntry(0);
      IndexOfUnique(tab, t, 0);
    } else if t.Unresolved? {
      assert tab[13] == ReservedEntry(13);
      forall j | 0 <= j < 13
        ensures tab[j] != t
      {
        assert tab[j] == ReservedEntry(j);
      }
      IndexOfUnique(tab, t, 13);
    } else {
      assert tab[i] == ReservedEntry(i);
      forall j | 0 <= j < i
        ensures tab[j] != t
      {
        assert tab[j] == ReservedEntry(j);
        if tab[j] == t {
          ReservedEntryIndex(j, t);
        }
      }
      IndexOfUnique(tab, t, i);
    }
  }

  /** On a fresh table every built-in type has the fixed handle numbered by its base type. */
  lemma BuiltinHandles(t: Type)
    requires !IsComposite(t) && Internable(t)
    ensures t in InitialTable()
    ensures MakeITypeFromParts(IndexOf(InitialTable(), t), t) == IType(BaseTypeIndex(BaseTypeOf(t)), BaseTypeOf(t), BUndefined)
  {
    InitialTableValid();
    ScalarsAtReservedSlots(InitialTable(), t);
  }

  lemma InitialTableValid()
    ensures ValidTable(InitialTable())
  {
  }

  /**
   * Appending a new internable composite whose components are present keeps
   * the table valid, and the new entry is found at the last index.
   */
  lemma AppendKeepsValid(tab: seq<Type>, t: Type)
    requires ValidTable(tab) && NewEntryOk(tab, t)
    ensures ValidTable(tab + [t])
    ensures t in tab + [t] && IndexOf(tab + [t], t) == |tab|
  {
    ValidReserved(tab);
    assert (tab + [t])[..|tab|] == tab;
    IndexOfUnique(tab + [t], t, |tab|);
  }

  /** `b` extends `a`, and every added entry is a type occurring in `t`. */
  ghost predicate Grown(a: seq<Type>, b: seq<Type>, t: Type) {
    a <= b && forall k :: |a| <= k < |b| ==> Occurs(b[k], t)
  }

  /** Appending `t` itself keeps the growth within the types occurring in `t`. */
  lemma GrownAppend(a: seq<Type>, b: seq<Type>, t: Type)
    requires Grown(a, b, t)
    ensures Grown(a, b + [t], t)
  {
    forall k | |a| <= k < |b| + 1
      ensures Occurs((b + [t])[k], t)
    {
      if k == |b| {
        assert (b + [t])[k] == t;
      } else {
        assert (b + [t])[k] == b[k];
      }
    }
  }

  /** Interning component `i` of `t` only adds types occurring in `t`, never `t` itself. */
  lemma ComponentGrowth(base: seq<Type>, prev: seq<Type>, cur: seq<Type>, t: Type, i: nat)
    requires i < |Components(t)|
    requires Grown(base, prev, t) && Grown(prev, cur, Components(t)[i]) && t !in prev
    ensures Grown(base, cur, t) && t !in cur
  {
    forall k | |prev| <= k < |cur|
      ensures Occurs(cur[k], t) && cur[k] != t
    {
      OccursInComponent(cur[k], t, i);
      NotInOwnComponent(t, i);
    }
    assert cur == prev + cur[|prev|..];
  }

  /** Entries of a prefix are entries of the whole table. */
  lemma PrefixEntries(a: seq<Type>, b: seq<Type>, xs: seq<Type>, n: nat)
    requires a <= b && n <= |xs|
    requires forall k :: 0 <= k < n ==> xs[k] in a
    ensures forall k :: 0 <= k < n ==> xs[k] in b
  {
    forall k | 0 <= k < n
      ensures xs[k] in b
    {
      var j :| 0 <= j < |a| && a[j] == xs[k];
      assert b[j] == xs[k];
    }
  }

  class TypeInterner {
    var interned: seq<Type>

    ghost predicate Valid()
      reads this
    {
      ValidTable(interned)
    }

    /** The constructor: the 15 reserved slots. */
    constructor()
      ensures Valid()
      ensures interned == InitialTable()
    {
      interned := InitialTable();
      InitialTableValid();
    }

    /** `std::find_if` over the table: the first equal entry, or -1. */
    method FindFirst(t: Type) returns (index: int)
      ensures index == -1 <==> t !in interned
      ensures index != -1 ==> 0 <= index < |interned| && index == IndexOf(interned, t)
    {
      index := 0;
      while index < |interned| && interned[index] != t
        invariant 0 <= index <= |interned|
        invariant t !in interned[..index]
      {
        assert interned[..index + 1] == interned[..index] + [interned[index]];
        index := index + 1;
      }
      if index == |interned| {
        assert interned[..index] == interned;
        index := -1;
      } else {
        IndexOfUnique(interned, t, index);
      }
    }

    /**
     * `intern_type`: a type already present yields the handle of its first
     * entry and leaves the table alone; otherwise `make_new_itype_recursive`
     * adds it. The table only grows, and only by types occurring in `t`.
     */
    method InternType(t: Type) returns (r: Result<IType>)
      requires Valid()
      modifies this
      ensures Valid()
      ensures Grown(old(interned), interned, t)
      ensures r.Success? <==> Internable(t)
      ensures r.Success? ==> t in interned && r.value == MakeITypeFromParts(IndexOf(interned, t), t)
      ensures t in old(interned) ==> interned == old(interned)
      ensures r.Success? && t !in old(interned) ==> IndexOf(interned, t) == |interned| - 1
      decreases Size(t), 2
    {
      var index := FindFirst(t);
      if index >= 0 {
        EntryInternable(interned, index);
        r := Success(MakeITypeFromParts(index, t));
      } else {
        r := MakeNewITypeRecursive(t);
      }
    }

    /**
     * `make_new_itype_recursive`: interns every component first (struct
     * members in order, the vector element, the dict value, all function
     * parts), then appends `t` and returns the handle of the new last entry.
     * A scalar never gets here, since every scalar sits in a reserved slot;
     * a non-empty unresolved identifier throws. A component that throws
     * leaves the components interned before it in the table.
     */
    method MakeNewITypeRecursive(t: Type) returns (r: Result<IType>)
      requires Valid() && t !in interned
      modifies this
      ensures Valid()
      ensures Grown(old(interned), interned, t)
      ensures r.Success? <==> Internable(t)
      ensures r.Success? ==>
        |interned| > |old(interned)| && t in interned && IndexOf(interned, t) == |interned| - 1 &&
        r.value == MakeITypeFromParts(|interned| - 1, t)
      decreases Size(t), 1
    {
      if !IsComposite(t) {
        if t.Unresolved? {
          ValidReserved(interned);
          assert interned[13] == ReservedEntry(13);
          return Failure("cannot intern an unresolved type identifier");
        }
        ScalarsAtReservedSlots(interned, t);
        assert false;
      }
      var parts := InternComponents(t);
      if parts.Failure? {
        InternableComponents(t);
        return Failure(parts.error);
      }
      InternableComponents(t);
      assert NewEntryOk(interned, t);
      AppendKeepsValid(interned, t);
      GrownAppend(old(interned), interned, t);
      interned := interned + [t];
      r := Success(MakeITypeFromParts(|interned| - 1, t));
    }

    /**
     * The component loop of `make_new_itype_recursive`: interns each
     * component of `t` in order and stops at the first one that throws.
     */
    method InternComponents(t: Type) returns (r: Result<seq<IType>>)
      requires Valid() && t !in interned && IsComposite(t)
      modifies this
      ensures Valid() && Grown(old(interned), interned, t) && t !in interned
      ensures r.Success? <==> forall k :: 0 <= k < |Components(t)| ==> Internable(Components(t)[k])
      ensures r.Success? ==> forall k :: 0 <= k < |Components(t)| ==> Components(t)[k] in interned
      decreases Size(t), 0
    {
      var parts := Components(t);
      var handles: seq<IType> := [];
      var i := 0;
      while i < |parts|
        invariant 0 <= i <= |parts|
        invariant Valid() && Grown(old(interned), interned, t) && t !in interned
        invariant forall k :: 0 <= k < i ==> parts[k] in interned && Internable(parts[k])
      {
        ComponentSmaller(t, i);
        var prev := interned;
        var e := InternType(parts[i]);
        ComponentGrowth(old(interned), prev, interned, t, i);
        if e.Failure? {
          return Failure(e.error);
        }
        PrefixEntries(prev, interned, parts, i);
        handles := handles + [e.value];
        i := i + 1;
      }
      r := Success(handles);
    }

    /** `lookup_itype`: the handle of the first equal entry; throws when the type was never interned. */
    method LookupIType(t: Type) returns (r: Result<IType>)
      ensures r.Success? <==> t in interned
      ensures r.Success? ==> r.value == MakeITypeFromParts(IndexOf(interned, t), t)
    {
      var index := FindFirst(t);
      if index >= 0 {
        r := Success(MakeITypeFromParts(index, t));
      } else {
        r := Failure("type was never interned");
      }
    }
  }
}
