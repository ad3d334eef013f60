/**
 * AST nodes in their JSON form: an array holding an optional source offset,
 * the opcode string and the node's parameters. Wrapping a node with a
 * location and unwrapping it again are inverse to each other.
 */
module AstJson {
  import opened JsonValues

  /** `location_t`: a source offset, or `k_no_location`. */
  datatype Location = NoLocation | At(offset: nat)

  /**
   * `make_ast_node`: `[opcode, params...]` without a location and
   * `[offset, opcode, params...]` with one.
   */
  function MakeAstNode(loc: Location, opcode: string, params: seq<Json>): (r: Json)
    ensures r.JArray? && |r.elements| == |params| + (if loc.At? then 2 else 1)
    ensures r.elements[|r.elements| - |params| - 1] == JString(opcode)
    ensures r.elements[|r.elements| - |params|..] == params
    ensures r.elements[0].JNumber? <==> loc.At?
  {
    match loc
    case NoLocation => JArray([JString(opcode)] + params)
    case At(offset) => JArray([JNumber(offset), JString(opcode)] + params)
  }

  /** `make_statement1`: a node with exactly one parameter; unpacking it gives back the location and `[opcode, ...]`. */
  function MakeStatement1(loc: Location, opcode: string, param: Json): (r: Json)
    ensures r.JArray? && |r.elements| == 2 + (if loc.At? then 1 else 0)
    ensures UnpackLoc(r) == (JArray([JString(opcode)] + [param]), loc)
  {
    UnpackLocRoundTrip(loc, opcode, [param]);
    MakeAstNode(loc, opcode, [param])
  }

  /** `make_statement2`: a node with exactly two parameters; unpacking it gives back the location and `[opcode, ...]`. */
  function MakeStatement2(loc: Location, opcode: string, param1: Json, param2: Json): (r: Json)
    ensures r.JArray? && |r.elements| == 3 + (if loc.At? then 1 else 0)
    ensures UnpackLoc(r) == (JArray([JString(opcode)] + [param1, param2]), loc)
  {
    UnpackLocRoundTrip(loc, opcode, [param1, param2]);
    MakeAstNode(loc, opcode, [param1, param2])
  }

  /** `make_expression1`: a node with exactly one parameter; unpacking it gives back the location and `[opcode, ...]`. */
  function MakeExpression1(loc: Location, opcode: string, param: Json): (r: Json)
    ensures r.JArray? && |r.elements| == 2 + (if loc.At? then 1 else 0)
    ensures UnpackLoc(r) == (JArray([JString(opcode)] + [param]), loc)
  {
    UnpackLocRoundTrip(loc, opcode, [param]);
    MakeAstNode(loc, opcode, [param])
  }

  /** `make_expression2`: a node with exactly two parameters; unpacking it gives back the location and `[opcode, ...]`. */
  function MakeExpression2(loc: Location, opcode: string, param1: Json, param2: Json): (r: Json)
    ensures r.JArray? && |r.elements| == 3 + (if loc.At? then 1 else 0)
    ensures UnpackLoc(r) == (JArray([JString(opcode)] + [param1, param2]), loc)
  {
    UnpackLocRoundTrip(loc, opcode, [param1, param2]);
    MakeAstNode(loc, opcode, [param1, param2])
  }

  /** A node wrapped at offset 1234 with no parameters is `[1234, opcode]`. */
  lemma MakeAstNodeExample()
    ensures MakeAstNode(At(1234), "def-struct", []) == JArray([JNumber(1234), JString("def-struct")])
  {
  }

  /**
   * `unpack_loc`: a leading number is the location and is removed from the
   * node; a node without one is returned as it is, with no location.
   */
  function UnpackLoc(s: Json): (r: (Json, Location))
    requires s.JArray? && |s.elements| > 0
    ensures r.0.JArray?
    ensures r.1.At? <==> s.elements[0].JNumber?
    ensures r.1.At? ==> s.elements == [JNumber(r.1.offset)] + r.0.elements
    ensures r.1.NoLocation? ==> r.0 == s
  {
    match s.elements[0]
    case JNumber(n) => (JArray(s.elements[1..]), At(n))
    case _ => (s, NoLocation)
  }

  /** `unpack_loc2`: only the location part of unpacking. */
  function UnpackLoc2(s: Json): (r: Location)
    requires s.JArray? && |s.elements| > 0
    ensures r.At? <==> s.elements[0].JNumber?
  {
    if s.elements[0].JNumber? then At(s.elements[0].n) else NoLocation
  }

  /** Unpacking a node made with a location gives back the location and the node made without it. */
  lemma UnpackLocRoundTrip(loc: Location, opcode: string, params: seq<Json>)
    ensures UnpackLoc(MakeAstNode(loc, opcode, params)) == (MakeAstNode(NoLocation, opcode, params), loc)
  {
    if loc.At? {
      assert MakeAstNode(loc, opcode, params).elements[1..] == [JString(opcode)] + params;
    }
  }

  /** Putting an unpacked location back in front of the node rebuilds the original node. */
  lemma PackUnpackedLoc(s: Json)
    requires s.JArray? && |s.elements| > 0
    requires s.elements[1..] != [] && s.elements[1].JString?
    ensures var (node, loc) := UnpackLoc(s);
            loc.At? ==> MakeAstNode(loc, s.elements[1].s, s.elements[2..]) == s
  {
    var (node, loc) := UnpackLoc(s);
    if loc.At? {
      assert s.elements == [s.elements[0], s.elements[1]] + s.elements[2..];
    }
  }

  /** `unpack_loc2` always returns the location `unpack_loc` returns. */
  lemma UnpackLoc2Agrees(s: Json)
    requires s.JArray? && |s.elements| > 0
    ensures UnpackLoc2(s) == UnpackLoc(s).1
  {
  }
}
