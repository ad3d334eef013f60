/**
 * The legacy dynamic value of the first Floyd prototype (`FloydDT`): a type
 * tag, one payload field per tag (a float, a string, a shared function
 * definition, a shared composite) of which only the tagged one may differ
 * from its default, and type signatures kept as text with a 32-bit hash.
 */
module FloydDynamicValues {
  import opened Wrappers
  import opened RuntimeValues

  /** 2^32: `uint32_t` arithmetic wraps around at this value. */
  const TwoTo32: int := 0x1_0000_0000

  /** The text of `"<null>"`, `"<float>"` and `"<string>"`, byte by byte. */
  const NullText: seq<Byte> := [0x3C, 0x6E, 0x75, 0x6C, 0x6C, 0x3E]
  const FloatText: seq<Byte> := [0x3C, 0x66, 0x6C, 0x6F, 0x61, 0x74, 0x3E]
  const StringText: seq<Byte> := [0x3C, 0x73, 0x74, 0x72, 0x69, 0x6E, 0x67, 0x3E]

  /** `IsWellformedFunction`: longer than the four characters of `"<>()"`. */
  predicate IsWellformedFunction(s: seq<Byte>) {
    |s| > 4
  }

  /** `IsWellformedComposite`: exactly 123344 characters long. */
  predicate IsWellformedComposite(s: seq<Byte>) {
    |s| == 123344
  }

  /**
   * `IsWellformedSignatureString`: one of the three basic signatures, a
   * function signature or a composite one. Every basic signature and every
   * composite one is also longer than four characters, so the test comes
   * down to the length alone.
   */
  function IsWellformedSignatureString(s: seq<Byte>): (r: bool)
    ensures r <==> |s| > 4
  {
    if s == NullText then true
    else if s == FloatText then true
    else if s == StringText then true
    else if IsWellformedFunction(s) then true
    else if IsWellformedComposite(s) then true
    else false
  }

  /** `TTypeSignature`: the signature text. */
  datatype Signature = Signature(text: seq<Byte>)

  /** `MakeSignature`: wraps a well-formed signature text; any other text fails the assertion. */
  function MakeSignature(s: seq<Byte>): (r: Signature)
    requires IsWellformedSignatureString(s)
    ensures |r.text| > 4 && r.text == s
  {
    Signature(s)
  }

  /** The value a byte adds to an `int` when read through a signed `char`. */
  function SignedChar(b: Byte): (r: int)
    ensures -128 <= r < 128
    ensures r % 0x100 == b as int
  {
    if b < 0x80 then b as int else b as int - 0x100
  }

  /** The sum of the signed values of the bytes. */
  function SignedSum(s: seq<Byte>): int {
    if s == [] then 0 else SignedSum(s[..|s| - 1]) + SignedChar(s[|s| - 1])
  }

  /** The hash of a signature text: 1234 plus the signed value of every byte, modulo 2^32. */
  function SignatureHash(s: seq<Byte>): (h: int)
    ensures 0 <= h < TwoTo32
  {
    (1234 + SignedSum(s)) % TwoTo32
  }

  /** `TTypeSignatureHash`: a 32-bit hash. */
  datatype SignatureHashValue = SignatureHashValue(hash: int)

  /**
   * `HashSignature`: starts a `uint32_t` at 1234 and adds every character
   * of the signature text, wrapping around at 2^32.
   */
  method HashSignature(s: Signature) returns (result: SignatureHashValue)
    ensures 0 <= result.hash < TwoTo32
    ensures result.hash == SignatureHash(s.text)
  {
    var badHash := 1234;
    var i := 0;
    while i < |s.text|
      invariant 0 <= i <= |s.text|
      invariant badHash == SignatureHash(s.text[..i])
    {
      var c := s.text[i];
      assert s.text[..i + 1][..i] == s.text[..i];
      WrapAdd(1234 + SignedSum(s.text[..i]), SignedChar(c));
      badHash := (badHash + SignedChar(c)) % TwoTo32;
      i := i + 1;
    }
    assert s.text[..i] == s.text;
    result := SignatureHashValue(badHash);
  }

  /** Wrapping before an addition or only after it gives the same 32-bit value. */
  lemma WrapAdd(a: int, b: int)
    ensures (a % TwoTo32 + b) % TwoTo32 == (a + b) % TwoTo32
  {
    var q := a / TwoTo32;
    assert a == q * TwoTo32 + a % TwoTo32;
    ModShift(a % TwoTo32 + b, q);
  }

  /** Adding a multiple of 2^32 does not change a value modulo 2^32. */
  lemma ModShift(x: int, q: int)
    ensures (x + q * TwoTo32) % TwoTo32 == x % TwoTo32
  {
  }

  /** The signed sum of two texts one after the other is the sum of their signed sums. */
  lemma {:induction false} SignedSumAppend(a: seq<Byte>, b: seq<Byte>)
    ensures SignedSum(a + b) == SignedSum(a) + SignedSum(b)
    decreases |b|
  {
    if b == [] {
      assert a + b == a;
    } else {
      var b' := b[..|b| - 1];
      assert (a + b)[..|a + b| - 1] == a + b';
      assert (a + b)[|a + b| - 1] == b[|b| - 1];
      SignedSumAppend(a, b');
    }
  }

  /** Hashing more text continues from the hash of the text so far. */
  lemma HashAppend(a: seq<Byte>, b: seq<Byte>)
    ensures SignatureHash(a + b) == (SignatureHash(a) + SignedSum(b)) % TwoTo32
  {
    SignedSumAppend(a, b);
    HashAppendArith(SignedSum(a), SignedSum(b), SignedSum(a + b));
  }

  /** The arithmetic of `HashAppend`, on the sums alone. */
  lemma HashAppendArith(x: int, y: int, z: int)
    requires z == x + y
    ensures (1234 + z) % TwoTo32 == ((1234 + x) % TwoTo32 + y) % TwoTo32
  {
    WrapAdd(1234 + x, y);
  }

  /** The hash ignores the order of the parts: two signatures made of the same two parts collide. */
  lemma HashRotate(a: seq<Byte>, b: seq<Byte>)
    ensures SignatureHash(a + b) == SignatureHash(b + a)
  {
    SignedSumAppend(a, b);
    SignedSumAppend(b, a);
  }

  /** `CFunctionPtr`: a C function pointer, possibly null; a function is known by its identity only. */
  datatype FunctionPtr = NullFunction | FunctionAt(id: nat)

  /** `FunctionDef`: a signature and the C function that implements it. */
  datatype FunctionDef = FunctionDef(signature: Signature, functionPtr: FunctionPtr)

  /**
   * `FloydDTType`: the four tags the code handles; `OtherTag` stands for
   * every other tag of the enumeration (the header is not part of this model).
   */
  datatype DTType = Null | Float | String | Function | OtherTag

  /**
   * `FloydDT`: the tag and the four payload fields. A shared pointer to the
   * function definition is `None` when null; the composite pointer is only
   * ever compared with null, so only whether it is set is kept.
   */
  datatype FloydDT = FloydDT(dtType: DTType, asFloat: real, asString: string, asFunction: Option<FunctionDef>, hasComposite: bool)

  /** A default-constructed `FloydDT`: every field at its default. */
  const DefaultDT: FloydDT := FloydDT(Null, 0.0, "", None, false)

  /**
   * `FloydDT::CheckInvariant`: every payload field the tag does not select
   * is at its default, a function value holds a definition with a non-null
   * function pointer, and any other tag fails.
   */
  predicate CheckInvariant(v: FloydDT) {
    match v.dtType
    case Null => v.asFloat == 0.0 && v.asString == "" && v.asFunction.None? && !v.hasComposite
    case Float => v.asString == "" && v.asFunction.None? && !v.hasComposite
    case String => v.asFloat == 0.0 && v.asFunction.None? && !v.hasComposite
    case Function =>
      v.asFloat == 0.0 && v.asString == "" && v.asFunction.Some? &&
      v.asFunction.value.functionPtr != NullFunction && !v.hasComposite
    case OtherTag => false
  }

  /** `IsNull`, `IsFloat`, `IsString` and `IsFunction`: the tag test, on a value that keeps the invariant. */
  predicate IsNull(v: FloydDT)
    requires CheckInvariant(v)
  {
    v.dtType == Null
  }

  predicate IsFloat(v: FloydDT)
    requires CheckInvariant(v)
  {
    v.dtType == Float
  }

  predicate IsString(v: FloydDT)
    requires CheckInvariant(v)
  {
    v.dtType == String
  }

  predicate IsFunction(v: FloydDT)
    requires CheckInvariant(v)
  {
    v.dtType == Function
  }

  /** `GetFloat`: the stored float of a float value. */
  function GetFloat(v: FloydDT): real
    requires CheckInvariant(v) && IsFloat(v)
  {
    v.asFloat
  }

  /** `GetString`: the stored string of a string value. */
  function GetString(v: FloydDT): string
    requires CheckInvariant(v) && IsString(v)
  {
    v.asString
  }

  /** `GetFunction`: the C function of a function value, which is never null. */
  function GetFunction(v: FloydDT): (r: FunctionPtr)
    requires CheckInvariant(v) && IsFunction(v)
    ensures r != NullFunction
  {
    v.asFunction.value.functionPtr
  }

  /** A value that keeps the invariant answers exactly one of the four tag tests. */
  lemma ExactlyOneTag(v: FloydDT)
    requires CheckInvariant(v)
    ensures IsNull(v) || IsFloat(v) || IsString(v) || IsFunction(v)
    ensures !(IsNull(v) && IsFloat(v)) && !(IsNull(v) && IsString(v)) && !(IsNull(v) && IsFunction(v))
    ensures !(IsFloat(v) && IsString(v)) && !(IsFloat(v) && IsFunction(v)) && !(IsString(v) && IsFunction(v))
  {
  }

  /**
   * A value that keeps the invariant is determined by its tag and the
   * payload that tag selects: two such values that agree on these are equal.
   */
  lemma InvariantDeterminesValue(a: FloydDT, b: FloydDT)
    requires CheckInvariant(a) && CheckInvariant(b) && a.dtType == b.dtType
    requires a.dtType == Float ==> a.asFloat == b.asFloat
    requires a.dtType == String ==> a.asString == b.asString
    requires a.dtType == Function ==> a.asFunction == b.asFunction
    ensures a == b
  {
  }

  /** `MakeNull`: a default value tagged null. */
  method MakeNull() returns (result: FloydDT)
    ensures CheckInvariant(result) && IsNull(result)
  {
    result := DefaultDT;
    result := result.(dtType := Null);
  }

  /** `MakeFloat`: a default value tagged float, holding `value`. */
  method MakeFloat(value: real) returns (result: FloydDT)
    ensures CheckInvariant(result) && IsFloat(result) && GetFloat(result) == value
  {
    result := DefaultDT;
    result := result.(dtType := Float);
    result := result.(asFloat := value);
  }

  /** `MakeString`: a default value tagged string, holding `value`. */
  method MakeString(value: string) returns (result: FloydDT)
    ensures CheckInvariant(result) && IsString(result) && GetString(result) == value
  {
    result := DefaultDT;
    result := result.(dtType := String);
    result := result.(asString := value);
  }

  /**
   * `MakeFunction`: a default value tagged function, holding a copy of the
   * definition; the invariant asserts that its function pointer is not null.
   */
  method MakeFunction(f: FunctionDef) returns (result: FloydDT)
    requires f.functionPtr != NullFunction
    ensures CheckInvariant(result) && IsFunction(result)
    ensures result.asFunction == Some(f) && GetFunction(result) == f.functionPtr
  {
    result := DefaultDT;
    result := result.(dtType := Function);
    result := result.(asFunction := Some(f));
  }
}
