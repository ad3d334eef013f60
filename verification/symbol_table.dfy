/**
 * The symbol table of a lexical scope: an ordered list of named symbols
 * that only grows, searched front to back so that the first symbol with a
 * name shadows any later one.
 */
module SymbolTables {
  import opened Wrappers
  import opened FloydTypes
  import opened BytecodeHelpers

  /** What `add_constant_literal` and `add_temp` record: a constant's value, or a temporary's type. */
  datatype Symbol = ConstantSymbol(value: Value) | TempSymbol(valueType: Type)

  /** The position of the first entry named `name`, or -1. */
  function FirstIndex(symbols: seq<(string, Symbol)>, name: string): (r: int)
    ensures -1 <= r < |symbols|
    ensures r == -1 <==> forall i :: 0 <= i < |symbols| ==> symbols[i].0 != name
    ensures r >= 0 ==> symbols[r].0 == name && forall i :: 0 <= i < r ==> symbols[i].0 != name
  {
    if symbols == [] then -1
    else if symbols[0].0 == name then 0
    else
      var k := FirstIndex(symbols[1..], name);
      if k == -1 then -1 else k + 1
  }

  /** The symbol `find_symbol` finds: the one in the first entry named `name`. */
  function Find(symbols: seq<(string, Symbol)>, name: string): (r: Option<Symbol>)
    ensures r.None? <==> forall i :: 0 <= i < |symbols| ==> symbols[i].0 != name
  {
    var k := FirstIndex(symbols, name);
    if k == -1 then None else Some(symbols[k].1)
  }

  /** Appending never changes what an existing name finds; a name not yet present finds the appended symbol. */
  lemma {:induction false} FindAfterAppend(symbols: seq<(string, Symbol)>, name: string, s: Symbol, other: string)
    ensures Find(symbols, other).Some? ==> Find(symbols + [(name, s)], other) == Find(symbols, other)
    ensures Find(symbols, name).None? ==> Find(symbols + [(name, s)], name) == Some(s)
  {
    var t := symbols + [(name, s)];
    var k := FirstIndex(symbols, other);
    if k >= 0 {
      assert t[k] == symbols[k];
      assert forall i :: 0 <= i < k ==> t[i] == symbols[i];
      FirstIndexUnique(t, other, k);
    }
    if Find(symbols, name).None? {
      assert t[|symbols|].0 == name;
      FirstIndexUnique(t, name, |symbols|);
    }
  }

  /** The first-match position is the only position named `name` with no earlier entry of that name. */
  lemma FirstIndexUnique(symbols: seq<(string, Symbol)>, name: string, k: nat)
    requires k < |symbols| && symbols[k].0 == name
    requires forall i :: 0 <= i < k ==> symbols[i].0 != name
    ensures FirstIndex(symbols, name) == k
  {
    var r := FirstIndex(symbols, name);
    assert r != -1;
  }

  /** A symbol table; `symbols` is the list `_symbols`. */
  class SymbolTable {
    var symbols: seq<(string, Symbol)>

    constructor ()
      ensures symbols == []
    {
      symbols := [];
    }

    /** `add_constant_literal`: appends a constant and returns its index, the old size. */
    method AddConstantLiteral(name: string, value: Value) returns (index: int)
      modifies this
      ensures symbols == old(symbols) + [(name, ConstantSymbol(value))]
      ensures index == |old(symbols)| && symbols[index] == (name, ConstantSymbol(value))
    {
      symbols := symbols + [(name, ConstantSymbol(value))];
      index := |symbols| - 1;
    }

    /** `add_temp`: appends a temporary of type `valueType` and returns its index, the old size. */
    method AddTemp(name: string, valueType: Type) returns (index: int)
      modifies this
      ensures symbols == old(symbols) + [(name, TempSymbol(valueType))]
      ensures index == |old(symbols)| && symbols[index] == (name, TempSymbol(valueType))
    {
      symbols := symbols + [(name, TempSymbol(valueType))];
      index := |symbols| - 1;
    }

    /** `find_symbol`: the symbol of the first entry named `name`, searched front to back; `None` for null. */
    method FindSymbol(name: string) returns (r: Option<Symbol>)
      ensures r == Find(symbols, name)
    {
      var i := 0;
      while i < |symbols|
        invariant 0 <= i <= |symbols|
        invariant forall k :: 0 <= k < i ==> symbols[k].0 != name
      {
        if symbols[i].0 == name {
          FirstIndexUnique(symbols, name, i);
          return Some(symbols[i].1);
        }
        i := i + 1;
      }
      return None;
    }

    /** `find_symbol_required`: the symbol `find_symbol` finds; a missing name throws. */
    method FindSymbolRequired(name: string) returns (r: Result<Symbol>)
      ensures r.Failure? <==> Find(symbols, name).None?
      ensures r.Success? ==> Find(symbols, name) == Some(r.value)
    {
      var found := FindSymbol(name);
      if found.None? {
        return Failure("symbol not found");
      }
      return Success(found.value);
    }
  }

  /**
   * `statement_t::check_types_resolved` over a list of statements: true
   * when every statement is resolved, stopping at the first that is not.
   * The per-statement check is the parameter `resolved`.
   */
  method CheckTypesResolvedAll<S>(statements: seq<S>, resolved: S -> bool) returns (r: bool)
    ensures r <==> forall i :: 0 <= i < |statements| ==> resolved(statements[i])
  {
    var i := 0;
    while i < |statements|
      invariant 0 <= i <= |statements|
      invariant forall k :: 0 <= k < i ==> resolved(statements[k])
    {
      if !resolved(statements[i]) {
        return false;
      }
      i := i + 1;
    }
    return true;
  }
}
