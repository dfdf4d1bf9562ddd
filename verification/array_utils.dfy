/** The byte-array helpers of groupcontrol's `util/ArrayUtils.java`. A Java
    `byte[]` that may be null is an `Option<bytes>`; exceptions are
    `Failure` results. */
module ArrayUtils {
  import opened Wrappers
  import opened JavaTypes

  /** `isEmpty`: null or of length zero. */
  predicate IsEmpty(arr: Option<bytes>)
  {
    arr.None? || |arr.value| == 0
  }

  /** The in-order concatenation of a list of arrays. */
  function Flatten(parts: seq<bytes>): (r: bytes)
    decreases |parts|
  {
    if |parts| == 0 then [] else parts[0] + Flatten(parts[1..])
  }

  /** The sum of the lengths of a list of arrays. */
  function TotalLength(parts: seq<bytes>): (n: nat)
    decreases |parts|
  {
    if |parts| == 0 then 0 else |parts[0]| + TotalLength(parts[1..])
  }

  lemma {:induction false} FlattenLength(parts: seq<bytes>)
    ensures |Flatten(parts)| == TotalLength(parts)
    decreases |parts|
  {
    if |parts| > 0 {
      FlattenLength(parts[1..]);
    }
  }

  lemma {:induction false} FlattenAppend(parts: seq<bytes>, last: bytes)
    ensures Flatten(parts + [last]) == Flatten(parts) + last
    decreases |parts|
  {
    if |parts| == 0 {
      assert parts + [last] == [last];
    } else {
      assert (parts + [last])[1..] == parts[1..] + [last];
      FlattenAppend(parts[1..], last);
    }
  }

  lemma {:induction false} FlattenConcat(a: seq<bytes>, b: seq<bytes>)
    ensures Flatten(a + b) == Flatten(a) + Flatten(b)
    decreases |a|
  {
    if |a| == 0 {
      assert a + b == b;
    } else {
      assert (a + b)[1..] == a[1..] + b;
      FlattenConcat(a[1..], b);
    }
  }

  // ---- divide ----

  /** The reference chunking: pieces of `len` bytes, the last one holding the
      remainder. */
  function Chunks(e: bytes, len: nat): (r: seq<bytes>)
    requires len > 0
    decreases |e|
  {
    if |e| <= len then [e] else [e[..len]] + Chunks(e[len..], len)
  }

  /** The chunks give back the input, every chunk but the last has exactly
      `len` bytes and the last holds between 1 and `len` bytes. */
  lemma {:induction false} ChunksShape(e: bytes, len: nat)
    requires len > 0 && |e| > 0
    ensures var r := Chunks(e, len);
      && |r| > 0
      && Flatten(r) == e
      && (forall i :: 0 <= i < |r| - 1 ==> |r[i]| == len)
      && 1 <= |r[|r| - 1]| <= len
    decreases |e|
  {
    if |e| > len {
      ChunksShape(e[len..], len);
      var r := Chunks(e, len);
      assert r[1..] == Chunks(e[len..], len);
      assert e == e[..len] + e[len..];
    }
  }

  /** `divide` as a function: one empty chunk for a null or empty array, the
      whole array when `len` is not in 1..length-1, the chunking otherwise. */
  function DivideSpec(entire: Option<bytes>, len: int): (r: seq<bytes>)
  {
    if IsEmpty(entire) then [[]]
    else if len <= 0 || len >= |entire.value| then [entire.value]
    else Chunks(entire.value, len)
  }

  /** `divide`: the copying loop of the source, shown to produce the chunking. */
  method Divide(entire: Option<bytes>, len: int) returns (chunks: seq<bytes>)
    ensures chunks == DivideSpec(entire, len)
  {
    if IsEmpty(entire) {
      return [[]];
    }
    var e := entire.value;
    if len <= 0 || len >= |e| {
      return [e];
    }
    chunks := [];
    var head := 0;
    while head + len < |e|
      invariant 0 <= head < |e|
      invariant chunks + Chunks(e[head..], len) == Chunks(e, len)
      decreases |e| - head
    {
      var rest := e[head..];
      assert rest[..len] == e[head..head + len];
      assert rest[len..] == e[head + len..];
      chunks := chunks + [e[head..head + len]];
      head := head + len;
    }
    chunks := chunks + [e[head..]];
  }

  /** What the source promises of `divide`, from the reference chunking. */
  lemma DivideShape(entire: Option<bytes>, len: int)
    ensures IsEmpty(entire) ==> DivideSpec(entire, len) == [[]]
    ensures !IsEmpty(entire) && (len <= 0 || len >= |entire.value|) ==> DivideSpec(entire, len) == [entire.value]
    ensures !IsEmpty(entire) ==> Flatten(DivideSpec(entire, len)) == entire.value
    ensures !IsEmpty(entire) && 0 < len ==>
      var r := DivideSpec(entire, len);
      && (forall i :: 0 <= i < |r| - 1 ==> |r[i]| == len)
      && 1 <= |r[|r| - 1]| <= len
  {
    if !IsEmpty(entire) {
      if len <= 0 || len >= |entire.value| {
        assert Flatten([entire.value]) == entire.value + Flatten([]);
      } else {
        ChunksShape(entire.value, len);
      }
    }
  }

  // ---- concatBytes / concatenate ----

  /** The non-null parts, in order. */
  function Present(parts: seq<Option<bytes>>): (r: seq<bytes>)
    decreases |parts|
  {
    if |parts| == 0 then []
    else if parts[0].None? then Present(parts[1..])
    else [parts[0].value] + Present(parts[1..])
  }

  /** The non-null, non-empty parts, in order. */
  function NonEmpty(parts: seq<Option<bytes>>): (r: seq<bytes>)
    decreases |parts|
  {
    if |parts| == 0 then []
    else if IsEmpty(parts[0]) then NonEmpty(parts[1..])
    else [parts[0].value] + NonEmpty(parts[1..])
  }

  lemma {:induction false} PresentAppend(parts: seq<Option<bytes>>, p: Option<bytes>)
    ensures Present(parts + [p]) == Present(parts) + (if p.None? then [] else [p.value])
    decreases |parts|
  {
    if |parts| == 0 {
      assert parts + [p] == [p];
    } else {
      assert (parts + [p])[1..] == parts[1..] + [p];
      PresentAppend(parts[1..], p);
    }
  }

  /** `concatBytes(List)`: sums the lengths of the non-null arrays, then copies
      them one after another into an array of that size. */
  method ConcatBytesList(rest: seq<Option<bytes>>) returns (r: bytes)
    ensures |r| == TotalLength(Present(rest))
    ensures r == Flatten(Present(rest))
  {
    r := [];
    var i := 0;
    while i < |rest|
      invariant 0 <= i <= |rest|
      invariant r == Flatten(Present(rest[..i]))
    {
      assert rest[..i + 1] == rest[..i] + [rest[i]];
      PresentAppend(rest[..i], rest[i]);
      if rest[i].Some? {
        FlattenAppend(Present(rest[..i]), rest[i].value);
        r := r + rest[i].value;
      } else {
        assert Present(rest[..i + 1]) == Present(rest[..i]) + [];
        assert Present(rest[..i]) + [] == Present(rest[..i]);
      }
      i := i + 1;
    }
    assert rest[..i] == rest;
    FlattenLength(Present(rest));
  }

  /** `concatenate`: like `concatBytes(List)` but it also skips empty parts. */
  function Concatenate(parts: seq<Option<bytes>>): (r: bytes)
  {
    Flatten(NonEmpty(parts))
  }

  /** Skipping empty parts changes nothing: both list concatenations agree. */
  lemma {:induction false} ConcatenateAgrees(parts: seq<Option<bytes>>)
    ensures Concatenate(parts) == Flatten(Present(parts))
    decreases |parts|
  {
    if |parts| > 0 {
      ConcatenateAgrees(parts[1..]);
      if parts[0].Some? && |parts[0].value| == 0 {
        assert Flatten(Present(parts)) == [] + Flatten(Present(parts[1..]));
      }
    }
  }

  /** `concatBytes(first, rest...)`: a null array anywhere is a
      NullPointerException; otherwise the in-order concatenation. */
  function ConcatBytes(first: Option<bytes>, rest: seq<Option<bytes>>): (r: Result<bytes>)
    ensures r.Success? <==> first.Some? && forall i :: 0 <= i < |rest| ==> rest[i].Some?
    ensures r.Success? ==> r.value == first.value + Flatten(Present(rest))
    ensures r.Failure? ==> r.error == NullPointer
  {
    if first.None? then Failure(NullPointer)
    else if exists i :: 0 <= i < |rest| && rest[i].None? then Failure(NullPointer)
    else Success(first.value + Flatten(Present(rest)))
  }

  /** With every part present, the concatenation's length is the sum of the
      lengths (the size the source allocates). */
  lemma ConcatBytesLength(first: bytes, rest: seq<Option<bytes>>)
    requires forall i :: 0 <= i < |rest| ==> rest[i].Some?
    ensures ConcatBytes(Some(first), rest).Success?
    ensures |ConcatBytes(Some(first), rest).value| == |first| + TotalLength(Present(rest))
  {
    FlattenLength(Present(rest));
  }

  // ---- ensureLength ----

  function Zeros(n: nat): (r: bytes)
    ensures |r| == n && forall i :: 0 <= i < n ==> r[i] == 0
  {
    seq(n, _ => 0)
  }

  /** `ensureLength`: exactly `len` bytes, zero-padded on the left or cut to
      the prefix; a negative `len` is a NegativeArraySizeException. */
  function EnsureLength(arr: Option<bytes>, len: int32): (r: Result<bytes>)
    ensures r.Failure? <==> len < 0
    ensures r.Success? ==> |r.value| == len
    ensures r.Success? && IsEmpty(arr) ==> r.value == Zeros(len)
    ensures r.Success? && !IsEmpty(arr) && |arr.value| <= len ==>
      r.value[..len - |arr.value|] == Zeros(len - |arr.value|) && r.value[len - |arr.value|..] == arr.value
    ensures r.Success? && !IsEmpty(arr) && |arr.value| >= len ==> r.value == arr.value[..len]
  {
    if len < 0 then Failure(NegativeArraySize)
    else if IsEmpty(arr) then Success(Zeros(len))
    else if |arr.value| < len then
      var pad := Zeros(len - |arr.value|);
      var ps := [Some(pad), arr];
      assert ps[1..] == [arr] && ps[1..][1..] == [];
      assert NonEmpty(ps[1..]) == [arr.value] + NonEmpty([]);
      assert NonEmpty(ps) == [pad] + NonEmpty(ps[1..]);
      assert NonEmpty(ps) == [pad, arr.value];
      var fs := [pad, arr.value];
      assert fs[1..] == [arr.value] && fs[1..][1..] == [];
      assert Flatten(fs[1..]) == arr.value + Flatten([]);
      assert Flatten(fs) == pad + Flatten(fs[1..]);
      assert Flatten(fs) == pad + arr.value;
      Success(Concatenate(ps))
    else if |arr.value| > len then Success(arr.value[..len])
    else Success(arr.value)
  }

  // ---- xorCheck / getCheckSum4JT808 ----

  /** The XOR of all bytes, 0 for none. */
  function XorFold(s: bytes): (r: uint8)
    decreases |s|
  {
    if |s| == 0 then 0 else Xor8(XorFold(s[..|s| - 1]), s[|s| - 1])
  }

  /** `xorCheck`. */
  function XorCheck(data: Option<bytes>): (r: uint8)
    ensures IsEmpty(data) ==> r == 0
    ensures data.Some? ==> r == XorFold(data.value)
  {
    if IsEmpty(data) then 0 else XorFold(data.value)
  }

  /** `getCheckSum4JT808`: the XOR over `[start, end)`; a null array is a
      NullPointerException, `start < 0` or `end > length` an
      ArrayIndexOutOfBoundsException, and an empty range gives 0. */
  function GetCheckSum4JT808(bs: Option<bytes>, start: int32, end: int32): (r: Result<uint8>)
    ensures r.Success? <==> bs.Some? && 0 <= start && end <= |bs.value|
    ensures r.Success? && start >= end ==> r.value == 0
    ensures r.Success? && start < end ==> r.value == XorFold(bs.value[start..end])
  {
    if bs.None? then Failure(NullPointer)
    else if start < 0 || end > |bs.value| then Failure(IndexOutOfBounds)
    else if start >= end then Success(0)
    else Success(XorFold(bs.value[start..end]))
  }

  /** The whole-array checksum is `xorCheck`. */
  lemma CheckSumWhole(bs: bytes)
    requires |bs| < 0x8000_0000
    ensures GetCheckSum4JT808(Some(bs), 0, |bs|) == Success(XorCheck(Some(bs)))
  {
    assert bs[0..|bs|] == bs;
  }

  /** Appending the checksum makes the XOR of the whole frame zero, which is
      how a receiver checks it. */
  lemma XorCheckAppended(data: bytes)
    ensures XorFold(data + [XorFold(data)]) == 0
  {
    var s := data + [XorFold(data)];
    assert s[..|s| - 1] == data;
    var x := XorFold(data) as bv8;
    assert x ^ x == 0;
  }

  // ---- subBytes, verifyCode, escape, unescape ----

  /** `subBytes`: `count` bytes from `begin`; a negative count fails before
      the source array is touched. */
  function SubBytes(src: Option<bytes>, begin: int32, count: int32): (r: Result<bytes>)
    ensures r.Success? <==> 0 <= count && src.Some? && 0 <= begin && begin + count <= |src.value|
    ensures r.Success? ==> |r.value| == count && forall i :: 0 <= i < count ==> r.value[i] == src.value[begin + i]
    ensures count < 0 ==> r == Failure(NegativeArraySize)
  {
    if count < 0 then Failure(NegativeArraySize)
    else if src.None? then Failure(NullPointer)
    else if begin < 0 || begin + count > |src.value| then Failure(IndexOutOfBounds)
    else Success(src.value[begin..begin + count])
  }

  /** `verifyCode`: everything but the last byte; its parity accumulator is
      computed and discarded, so it has no effect on the result. */
  function VerifyCode(input: Option<bytes>): (r: bytes)
    ensures IsEmpty(input) ==> r == []
    ensures !IsEmpty(input) ==> r + [input.value[|input.value| - 1]] == input.value
  {
    if IsEmpty(input) then [] else input.value[..|input.value| - 1]
  }

  /** `escape`: the identity on non-empty input, empty otherwise. */
  function Escape(input: Option<bytes>): (r: bytes)
    ensures IsEmpty(input) ==> r == []
    ensures input.Some? ==> r == input.value
  {
    if IsEmpty(input) then [] else input.value
  }

  /** `unescape`: written with the same body as `escape`, so the same
      identity. */
  function Unescape(input: Option<bytes>): (r: bytes)
    ensures IsEmpty(input) ==> r == []
    ensures input.Some? ==> r == input.value
  {
    Escape(input)
  }

  lemma EscapeRoundTrip(b: bytes)
    ensures Unescape(Some(Escape(Some(b)))) == b
  {
  }
}
