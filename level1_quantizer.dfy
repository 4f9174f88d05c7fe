/**
 * The list-number codec of the level-1 (coarse) quantizer: how many bytes a
 * list number takes for a given `nlist`, and the little-endian encoding and
 * checked decoding of a list number in that many bytes.
 */
module Level1Quantizer {
  import opened Status

  type byte = x: int | 0 <= x < 256

  /** 2^64: `size_t` values lie in [0, SIZE_T_LIMIT). */
  const SIZE_T_LIMIT: nat := 0x1_0000_0000_0000_0000
  /** 2^63: `int64_t` values lie in [-INT64_LIMIT, INT64_LIMIT). */
  const INT64_LIMIT: nat := 0x8000_0000_0000_0000

  type SizeT = x: int | 0 <= x < SIZE_T_LIMIT
  type Int64 = x: int | -(INT64_LIMIT as int) <= x < INT64_LIMIT

  /** `nlist - 1` evaluated in `size_t`: it wraps to the largest value when nlist == 0. */
  function Nl(nlist: SizeT): (nl: SizeT)
    ensures nlist > 0 ==> nl + 1 == nlist
  {
    if nlist == 0 then SIZE_T_LIMIT - 1 else nlist - 1
  }

  function Pow256(k: nat): (p: nat)
    ensures p >= 1
  {
    if k == 0 then 1 else 256 * Pow256(k - 1)
  }

  lemma {:induction false} Pow256Monotone(i: nat, j: nat)
    requires i <= j
    ensures Pow256(i) <= Pow256(j)
  {
    if i < j {
      Pow256Monotone(i, j - 1);
    }
  }

  /** `b` is the least number of bytes whose shifts by 8 bring `nl` to zero. */
  ghost predicate IsCoarseWidth(nl: nat, b: nat)
  {
    nl < Pow256(b) && (b == 0 || Pow256(b - 1) <= nl)
  }

  /** The width in bytes of an encoded list number when the largest list number is `nl`. */
  function CoarseWidth(nl: nat): (b: nat)
    ensures IsCoarseWidth(nl, b)
    decreases nl
  {
    if nl == 0 then 0 else 1 + CoarseWidth(nl / 256)
  }

  /** The width is the least one: no two widths fit the same `nl`. */
  lemma CoarseWidthUnique(nl: nat, b1: nat, b2: nat)
    requires IsCoarseWidth(nl, b1) && IsCoarseWidth(nl, b2)
    ensures b1 == b2
  {
    if b1 < b2 {
      Pow256Monotone(b1, b2 - 1);
    } else if b2 < b1 {
      Pow256Monotone(b2, b1 - 1);
    }
  }

  /** Widths for the usual list counts: 0 bytes for one list, 1 up to 256 lists,
      2 up to 65536 lists, and 8 for nlist == 0 (where nlist - 1 wraps). */
  lemma CoarseWidthExamples(nlist: SizeT)
    ensures nlist == 1 ==> CoarseWidth(Nl(nlist)) == 0
    ensures 2 <= nlist <= 256 ==> CoarseWidth(Nl(nlist)) == 1
    ensures 257 <= nlist <= 65536 ==> CoarseWidth(Nl(nlist)) == 2
    ensures nlist == 0 ==> CoarseWidth(Nl(nlist)) == 8
  {
    var nl := Nl(nlist);
    if nlist == 1 {
      CoarseWidthUnique(nl, CoarseWidth(nl), 0);
    } else if 2 <= nlist <= 256 {
      CoarseWidthUnique(nl, CoarseWidth(nl), 1);
    } else if 257 <= nlist <= 65536 {
      assert Pow256(2) == 65536;
      CoarseWidthUnique(nl, CoarseWidth(nl), 2);
    } else if nlist == 0 {
      assert Pow256(8) == SIZE_T_LIMIT;
      assert Pow256(7) <= nl;
      CoarseWidthUnique(nl, CoarseWidth(nl), 8);
    }
  }

  /** A `size_t` never needs more than eight bytes. */
  lemma WidthAtMost8(nl: SizeT)
    ensures CoarseWidth(nl) <= 8
  {
    var b := CoarseWidth(nl);
    assert Pow256(8) == SIZE_T_LIMIT;
    if b > 8 {
      Pow256Monotone(8, b - 1);
    }
  }

  /** Level1Quantizer::coarse_code_size: the number of bytes of an encoded list number. */
  method CoarseCodeSize(nlist: SizeT) returns (nbyte: nat)
    ensures IsCoarseWidth(Nl(nlist), nbyte)
    ensures nbyte == CoarseWidth(Nl(nlist))
  {
    var nl: nat := Nl(nlist);
    nbyte := 0;
    while nl > 0
      invariant nbyte + CoarseWidth(nl) == CoarseWidth(Nl(nlist))
      decreases nl
    {
      nbyte := nbyte + 1;
      nl := nl / 256;
    }
  }

  /** The `k` low bytes of `v` in two's complement, least significant first. */
  function LeBytes(v: int, k: nat): (s: seq<byte>)
    ensures |s| == k
    decreases k
  {
    if k == 0 then [] else [v % 256] + LeBytes(v / 256, k - 1)
  }

  /** The unsigned value of little-endian bytes. */
  function LeValue(s: seq<byte>): nat
  {
    if s == [] then 0 else s[0] + 256 * LeValue(s[1..])
  }

  lemma {:induction false} LeValueBound(s: seq<byte>)
    ensures LeValue(s) < Pow256(|s|)
  {
    if s != [] {
      LeValueBound(s[1..]);
    }
  }

  lemma {:induction false} LeValueAppend(s: seq<byte>, b: byte)
    ensures LeValue(s + [b]) == LeValue(s) + b * Pow256(|s|)
  {
    if s != [] {
      assert (s + [b])[1..] == s[1..] + [b];
      LeValueAppend(s[1..], b);
    }
  }

  /** Encoding a value that fits and reading it back gives the value. */
  lemma {:induction false} LeValueOfLeBytes(v: nat, k: nat)
    requires v < Pow256(k)
    ensures LeValue(LeBytes(v, k)) == v
  {
    if k > 0 {
      assert v / 256 < Pow256(k - 1);
      LeValueOfLeBytes(v / 256, k - 1);
    }
  }

  /** A list number's bytes fit in a `size_t`. */
  lemma CoarseBytesFit(nlist: SizeT, s: seq<byte>)
    requires |s| == CoarseWidth(Nl(nlist))
    ensures LeValue(s) < SIZE_T_LIMIT
  {
    WidthAtMost8(Nl(nlist));
    LeValueBound(s);
    Pow256Monotone(|s|, 8);
    assert Pow256(8) == SIZE_T_LIMIT;
  }

  /** The `int64_t` whose bit pattern is the unsigned `u`. */
  function ToInt64(u: nat): Int64
    requires u < SIZE_T_LIMIT
  {
    if u < INT64_LIMIT then u else u - SIZE_T_LIMIT
  }

  /** Level1Quantizer::decode_listno on the bytes it reads: the reconstructed
      value, accepted only when it is a list number of this index. */
  function DecodeListNoSpec(nlist: SizeT, s: seq<byte>): Result<Int64>
    requires |s| == CoarseWidth(Nl(nlist))
  {
    CoarseBytesFit(nlist, s);
    var v := ToInt64(LeValue(s));
    if 0 <= v < nlist then Ok(v) else Err(RangeError)
  }

  /** Level1Quantizer::encode_listno: writes the coarse width's worth of bytes of
      `listNo`, least significant first, at `code[pos..]`, and nothing else. */
  method EncodeListNo(nlist: SizeT, listNo: Int64, code: array<byte>, pos: nat)
    requires pos + CoarseWidth(Nl(nlist)) <= code.Length
    modifies code
    ensures code[pos..pos + CoarseWidth(Nl(nlist))] == LeBytes(listNo, CoarseWidth(Nl(nlist)))
    ensures forall i :: 0 <= i < code.Length && !(pos <= i < pos + CoarseWidth(Nl(nlist))) ==>
      code[i] == old(code[i])
  {
    ghost var k := CoarseWidth(Nl(nlist));
    ghost var want := LeBytes(listNo, k);
    var nl: nat := Nl(nlist);
    var l: int := listNo;
    var p := pos;
    while nl > 0
      invariant pos <= p && p + CoarseWidth(nl) == pos + k
      invariant forall i :: pos <= i < p ==> code[i] == want[i - pos]
      invariant LeBytes(l, CoarseWidth(nl)) == want[p - pos..]
      invariant forall i :: 0 <= i < code.Length && !(pos <= i < p) ==> code[i] == old(code[i])
      decreases nl
    {
      assert want[p - pos] == l % 256;
      assert LeBytes(l / 256, CoarseWidth(nl) - 1) == want[p - pos + 1..];
      code[p] := l % 256;
      l := l / 256;
      nl := nl / 256;
      p := p + 1;
    }
    assert code[pos..pos + k] == want;
  }

  /** Level1Quantizer::decode_listno: reads the coarse width's worth of bytes at
      `code[pos..]` and fails with RangeError unless they name a list of the index. */
  method DecodeListNo(nlist: SizeT, code: array<byte>, pos: nat) returns (r: Result<Int64>)
    requires pos + CoarseWidth(Nl(nlist)) <= code.Length
    ensures r == DecodeListNoSpec(nlist, code[pos..pos + CoarseWidth(Nl(nlist))])
    ensures r.Ok? ==> 0 <= r.value < nlist
  {
    ghost var k := CoarseWidth(Nl(nlist));
    var nl: nat := Nl(nlist);
    var listNo: nat := 0;   // accumulated as unsigned, reinterpreted below
    var scale: nat := 1;    // 1 << nbit
    var p := pos;
    while nl > 0
      invariant pos <= p && p + CoarseWidth(nl) == pos + k
      invariant scale == Pow256(p - pos)
      invariant listNo == LeValue(code[pos..p])
      decreases nl
    {
      ghost var done := code[pos..p];
      assert code[pos..p + 1] == done + [code[p]];
      LeValueAppend(done, code[p]);
      listNo := listNo + code[p] * scale;
      scale := scale * 256;
      nl := nl / 256;
      p := p + 1;
    }
    CoarseBytesFit(nlist, code[pos..pos + k]);
    var v := ToInt64(listNo);
    if 0 <= v < nlist {
      r := Ok(v);
    } else {
      r := Err(RangeError);
    }
  }

  /** Round trip: every list number of the index survives encode then decode. */
  lemma ListNoRoundTrip(nlist: SizeT, l: Int64)
    requires 0 <= l < nlist
    ensures DecodeListNoSpec(nlist, LeBytes(l, CoarseWidth(Nl(nlist)))) == Ok(l)
  {
    var k := CoarseWidth(Nl(nlist));
    LeValueOfLeBytes(l, k);
  }

  /** Decoding rejects some byte string of the right width exactly when nlist is
      not a power of 256 (for widths up to 7 bytes, where no value turns negative). */
  lemma DecodeRejectsSomeIffNotPowerOf256(nlist: SizeT)
    requires 1 <= nlist && CoarseWidth(Nl(nlist)) < 8
    ensures (exists s: seq<byte> :: |s| == CoarseWidth(Nl(nlist)) && DecodeListNoSpec(nlist, s).Err?)
      <==> nlist != Pow256(CoarseWidth(Nl(nlist)))
  {
    var k := CoarseWidth(Nl(nlist));
    Pow256Monotone(k, 7);
    assert Pow256(7) < INT64_LIMIT;
    if nlist != Pow256(k) {
      assert nlist < Pow256(k);
      var s := LeBytes(nlist, k);
      LeValueOfLeBytes(nlist, k);
      assert DecodeListNoSpec(nlist, s).Err?;
    } else {
      forall s: seq<byte> | |s| == k
        ensures DecodeListNoSpec(nlist, s).Ok?
      {
        LeValueBound(s);
      }
    }
  }

  /** With three lists (not a power of 256) the byte 0xff decodes to 255 and is rejected. */
  lemma DecodeRejectsExample()
    ensures CoarseWidth(Nl(3)) == 1
    ensures DecodeListNoSpec(3, [255]) == Err(RangeError)
  {
    CoarseWidthExamples(3);
  }
}
