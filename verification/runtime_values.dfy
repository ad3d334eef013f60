/**
 * The machine-level values the LLVM runtime's host functions work on:
 * bytes of C strings, 64-bit runtime values, element arrays of vectors, the
 * body of a dict, and the element copy loop they share.
 */
module RuntimeValues {
  import opened FloydTypes
  import JsonValues

  newtype Byte = x: int | 0 <= x < 0x100

  /** `int64_t`, the integer view of a 64-bit `runtime_value_t`. */
  newtype Int64 = x: int | -0x8000_0000_0000_0000 <= x < 0x8000_0000_0000_0000

  /**
   * A `runtime_value_t` as stored in a vector element, a dict entry or
   * passed by value. Only its integer view is modelled; payloads that are
   * pointers are compared by their bits like any other word.
   */
  type Word = Int64

  /** A C string: no byte of its contents is NUL. */
  predicate IsCString(s: seq<Byte>) {
    forall i :: 0 <= i < |s| ==> s[i] != 0
  }

  /** The string `strlen` sees in a buffer: the bytes up to the first NUL. */
  function CStr(buf: seq<Byte>): (r: seq<Byte>)
    ensures IsCString(r) && r <= buf
    ensures |r| < |buf| ==> buf[|r|] == 0
  {
    if buf == [] || buf[0] == 0 then []
    else [buf[0]] + CStr(buf[1..])
  }

  /** A terminated buffer holding a C string reads back as that string. */
  lemma {:induction false} CStrOfTerminated(s: seq<Byte>, rest: seq<Byte>)
    requires IsCString(s)
    ensures CStr(s + [0] + rest) == s
  {
    if s != [] {
      assert (s + [0] + rest)[1..] == s[1..] + [0] + rest;
      CStrOfTerminated(s[1..], rest);
    }
  }

  /** `(char)i`: the low eight bits of an integer, the two's-complement truncation. */
  function CharOf(i: Int64): (r: Byte)
    ensures (r as int - i as int) % 0x100 == 0
  {
    (i as int % 0x100) as Byte
  }

  /**
   * `buf` after copying `src` to position `offset`; positions past the end
   * of `buf` are not part of it, so writes there are dropped.
   */
  function Overwrite<T>(buf: seq<T>, offset: nat, src: seq<T>): (r: seq<T>)
    ensures |r| == |buf|
    ensures forall k :: 0 <= k < |buf| && !(offset <= k < offset + |src|) ==> r[k] == buf[k]
    ensures forall k :: offset <= k < offset + |src| && k < |buf| ==> r[k] == src[k - offset]
  {
    seq(|buf|, k requires 0 <= k < |buf| => if offset <= k < offset + |src| then src[k - offset] else buf[k])
  }

  /** When the copy fits, overwriting is splicing. */
  lemma OverwriteFits<T>(buf: seq<T>, offset: nat, src: seq<T>)
    requires offset + |src| <= |buf|
    ensures Overwrite(buf, offset, src) == buf[..offset] + src + buf[offset + |src|..]
  {
    var r := Overwrite(buf, offset, src);
    var s := buf[..offset] + src + buf[offset + |src|..];
    assert |r| == |s|;
    forall k | 0 <= k < |r|
      ensures r[k] == s[k]
    {
      if k < offset {
      } else if k < offset + |src| {
      } else {
      }
    }
  }

  /**
   * `copy_elements`: copies `count` elements of `source`, starting at
   * `sourceStart`, into `dest` at `destStart`. The C function takes only the
   * two pointers and the count; its callers pass `&ptr[offset]`, and the two
   * offsets stand for that pointer arithmetic.
   */
  method CopyElements(dest: array<Word>, destStart: nat, source: seq<Word>, sourceStart: nat, count: nat)
    requires destStart + count <= dest.Length && sourceStart + count <= |source|
    modifies dest
    ensures dest[..] == Overwrite(old(dest[..]), destStart, source[sourceStart..sourceStart + count])
  {
    var i := 0;
    while i < count
      invariant 0 <= i <= count
      invariant dest[..] == Overwrite(old(dest[..]), destStart, source[sourceStart..sourceStart + i])
    {
      dest[destStart + i] := source[sourceStart + i];
      i := i + 1;
    }
  }

  /** The body of a `DICT_T`: string keys to runtime values. */
  class DictBody {
    var entries: map<seq<Byte>, Word>

    constructor (entries: map<seq<Byte>, Word>)
      ensures this.entries == entries
    {
      this.entries := entries;
    }
  }

  /**
   * A host function argument, a `runtime_value_t` as its type says to read
   * it: a C string, a vector's element array, a dict, a JSON value, or a
   * plain word.
   */
  datatype Arg =
    | StrArg(s: seq<Byte>)
    | VecArg(v: array<Word>)
    | DictArg(d: DictBody)
    | JsonArg(j: JsonValues.Json)
    | WordArg(w: Word)

  /** The argument is read the way its type says. */
  predicate Agrees(a: Arg, t: Type) {
    (t.String? <==> a.StrArg?) && (t.Vector? <==> a.VecArg?) && (t.Dict? <==> a.DictArg?) &&
    (t.Json? <==> a.JsonArg?) &&
    (a.StrArg? ==> IsCString(a.s))
  }
}
