// The geometry half of the converter: hex text to bytes, bytes to fixed-size
// records, records to vertices and half-edges, the fan walk over a hull face
// and the assembly of an indexed triangle mesh.
module Geometry {
  import opened Results

  newtype byte = n: int | 0 <= n < 0x100

  /** A 32-bit value copied through unchanged: the bit pattern of a `float`
      coordinate, which the converter never computes with. */
  newtype word = n: int | 0 <= n < 0x1_0000_0000

  // ---------------------------------------------------------------------------
  // Hex digits

  predicate InRange(x: char, a: char, b: char) { a <= x <= b }

  /** `n & ~0x20` for a non-negative `n`: bit 5 cleared. */
  function ClearBit5(n: nat): nat {
    n - 0x20 * ((n / 0x20) % 2)
  }

  /** GetBits: a decimal digit counts from '0'; anything else has bit 5 cleared
      (folding 'a'-'f' onto 'A'-'F') and counts from 'A' as ten. No character is
      rejected: a non-hex character yields whatever this arithmetic gives, which
      may be negative. */
  function GetBits(x: char): int {
    if InRange(x, '0', '9') then x as int - '0' as int
    else ClearBit5(x as int) - 'A' as int + 0xA
  }

  function Pow2(k: nat): (p: nat)
    ensures p >= 1
  {
    if k == 0 then 1 else 2 * Pow2(k - 1)
  }

  /** Bitwise or of the low `k` bits of `a` and `b`. */
  function OrBits(a: nat, b: nat, k: nat): (r: nat)
    ensures r < Pow2(k)
  {
    if k == 0 then 0
    else 2 * OrBits(a / 2, b / 2, k - 1) + (if a % 2 == 1 || b % 2 == 1 then 1 else 0)
  }

  /** GetByte's arithmetic on two characters: the high digit shifted left by
      four, or-ed with the low digit, and truncated to a byte. In 32-bit two's
      complement the low eight bits of a value are its remainder modulo 256, and
      the low eight bits of an or are the or of the low eight bits. */
  function PairByte(hi: char, lo: char): byte {
    OrBits((GetBits(hi) * 16) % 256, GetBits(lo) % 256, 8) as byte
  }

  function GetByte(x: string, index: nat): byte
    requires index + 1 < |x|
  {
    PairByte(x[index], x[index + 1])
  }

  predicate IsHexDigit(c: char) {
    InRange(c, '0', '9') || InRange(c, 'a', 'f') || InRange(c, 'A', 'F')
  }

  /** The value of a hex digit, by the usual definition. */
  function HexValue(c: char): (v: nat)
    requires IsHexDigit(c)
    ensures v < 16
  {
    if InRange(c, '0', '9') then c as int - '0' as int
    else if InRange(c, 'a', 'f') then c as int - 'a' as int + 10
    else c as int - 'A' as int + 10
  }

  /** The upper-case form of a hex digit. */
  function HexUpper(c: char): (u: char)
    requires IsHexDigit(c)
    ensures IsHexDigit(u)
  {
    if InRange(c, 'a', 'f') then (c as int - 0x20) as char else c
  }

  /** On a hex digit GetBits is the digit's value, in either case. */
  lemma GetBitsHex(c: char)
    requires IsHexDigit(c)
    ensures GetBits(c) == HexValue(c)
  {
  }

  lemma {:induction false} OrZero(a: nat, k: nat)
    requires a < Pow2(k)
    ensures OrBits(a, 0, k) == a
  {
    if k > 0 {
      OrZero(a / 2, k - 1);
    }
  }

  /** Or-ing a value into bits that are clear is adding it. */
  lemma {:induction false} OrDisjoint(a: nat, b: nat, j: nat, k: nat)
    requires j <= k && b < Pow2(j) && a * Pow2(j) < Pow2(k)
    ensures OrBits(a * Pow2(j), b, k) == a * Pow2(j) + b
  {
    if j == 0 {
      OrZero(a, k);
    } else {
      var p := Pow2(j - 1);
      assert a * Pow2(j) == 2 * (a * p);
      assert (a * Pow2(j)) / 2 == a * p && (a * Pow2(j)) % 2 == 0;
      assert b / 2 < p;
      assert a * p < Pow2(k - 1);
      OrDisjoint(a, b / 2, j - 1, k - 1);
    }
  }

  /** On two hex digits the or of the shifted high digit and the low digit is
      16 * high + low. */
  lemma PairByteHex(hi: char, lo: char)
    requires IsHexDigit(hi) && IsHexDigit(lo)
    ensures PairByte(hi, lo) as int == 16 * HexValue(hi) + HexValue(lo)
  {
    var h, l := HexValue(hi), HexValue(lo);
    GetBitsHex(hi);
    GetBitsHex(lo);
    assert (GetBits(hi) * 16) % 256 == h * 16;
    assert GetBits(lo) % 256 == l;
    assert Pow2(4) == 16;
    assert Pow2(8) == 256;
    OrDisjoint(h, l, 4, 8);
  }

  /** GetByte on two hex digits is 16 * high + low, and the case of either digit
      does not matter. */
  lemma GetByteHex(x: string, index: nat)
    requires index + 1 < |x|
    requires IsHexDigit(x[index]) && IsHexDigit(x[index + 1])
    ensures GetByte(x, index) as int == 16 * HexValue(x[index]) + HexValue(x[index + 1])
    ensures GetByte(x, index) == PairByte(HexUpper(x[index]), HexUpper(x[index + 1]))
  {
    var hi, lo := x[index], x[index + 1];
    PairByteHex(hi, lo);
    PairByteHex(HexUpper(hi), HexUpper(lo));
  }

  // ---------------------------------------------------------------------------
  // BytesToVec

  /** `prefix` put in front of a successful result. */
  function Then<T>(prefix: seq<T>, r: Result<seq<T>>): Result<seq<T>> {
    match r
    case Err => Err
    case Ok(rest) => Ok(prefix + rest)
  }

  lemma ThenNil<T>(r: Result<seq<T>>)
    ensures Then([], r) == r
  {
    if r.Ok? {
      assert [] + r.value == r.value;
    }
  }

  /** The byte stage of BytesToVec: a space is skipped, any other character is
      read together with the one after it as a GetByte pair, and a character
      with nothing after it raises. */
  function HexBytes(s: string): (r: Result<seq<byte>>)
    ensures r.Ok? ==> 2 * |r.value| <= |s|
  {
    if s == [] then Ok([])
    else if s[0] == ' ' then HexBytes(s[1..])
    else if |s| < 2 then Err
    else Then([PairByte(s[0], s[1])], HexBytes(s[2..]))
  }

  /** The grouping stage: consecutive records of `size` bytes, in order; bytes
      left over after the last whole record are dropped. */
  function Records(bs: seq<byte>, size: nat): (r: seq<seq<byte>>)
    requires size > 0
    ensures forall k :: 0 <= k < |r| ==> |r[k]| == size
    decreases |bs|
  {
    if |bs| < size then [] else [bs[..size]] + Records(bs[size..], size)
  }

  /** What BytesToVec returns for a type of `size` bytes, before each record is
      read as a value of that type. */
  function Vec(s: string, size: nat): Result<seq<seq<byte>>>
    requires size > 0
  {
    match HexBytes(s)
    case Err => Err
    case Ok(bs) => Ok(Records(bs, size))
  }

  /** BytesToVec<T>, with `size` the byte size of T. The records come back as
      byte sequences; reading them as floats, bytes or ints is done by the
      decoders below. */
  method BytesToVec(bytes: string, size: nat) returns (r: Result<seq<seq<byte>>>)
    requires size > 0
    ensures r == Vec(bytes, size)
  {
    var byteList := ByteStage(bytes);
    if byteList.Err? {
      return Err;
    }
    var result := RecordStage(byteList.value, size);
    r := Ok(result);
  }

  /** The first loop of BytesToVec: hex text to the byte list. */
  method ByteStage(bytes: string) returns (r: Result<seq<byte>>)
    ensures r == HexBytes(bytes)
  {
    var byteList: seq<byte> := [];
    var i := 0;
    assert bytes[0..] == bytes;
    ThenNil(HexBytes(bytes));
    while i < |bytes|
      invariant i <= |bytes|
      invariant HexBytes(bytes) == Then(byteList, HexBytes(bytes[i..]))
    {
      ghost var rest := bytes[i..];
      if bytes[i] == ' ' {
        assert rest[1..] == bytes[i + 1..];
        i := i + 1;
      } else {
        if i + 1 >= |bytes| {
          assert HexBytes(rest) == Err;
          return Err;
        }
        assert rest[0] == bytes[i] && rest[1] == bytes[i + 1] && rest[2..] == bytes[i + 2..];
        ThenAppend(byteList, [GetByte(bytes, i)], HexBytes(bytes[i + 2..]));
        byteList := byteList + [GetByte(bytes, i)];
        i := i + 2;
      }
    }
    assert bytes[i..] == [] && byteList + [] == byteList;
    r := Ok(byteList);
  }

  /** The second loop of BytesToVec: each byte goes into the buffer, and a full
      buffer is read as one record. */
  method RecordStage(byteList: seq<byte>, size: nat) returns (result: seq<seq<byte>>)
    requires size > 0
    ensures result == Records(byteList, size)
  {
    result := [];
    var buffer := new byte[size];
    var bufferIndex := 0;
    var j := 0;
    ghost var done := 0;
    while j < |byteList|
      invariant 0 <= bufferIndex < size && done + bufferIndex == j <= |byteList|
      invariant Whole(byteList[..done], size) && result == Records(byteList[..done], size)
      invariant buffer[..bufferIndex] == byteList[done..j]
    {
      ghost var before := buffer[..bufferIndex];
      buffer[bufferIndex] := byteList[j];
      assert buffer[..bufferIndex + 1] == byteList[done..j + 1] by {
        assert buffer[..bufferIndex] == before;
        assert buffer[..bufferIndex + 1] == before + [byteList[j]];
        assert byteList[done..j + 1] == byteList[done..j] + [byteList[j]];
      }
      bufferIndex := bufferIndex + 1;
      j := j + 1;
      if bufferIndex == size {
        assert Records(byteList[..j], size) == result + [buffer[..]] && Whole(byteList[..j], size) by {
          RecordsSnoc(byteList[..done], byteList[done..j], size);
          assert byteList[..done] + byteList[done..j] == byteList[..j];
          assert buffer[..] == buffer[..size];
        }
        result := result + [buffer[..]];
        bufferIndex := 0;
        done := j;
      }
    }
    assert byteList[..done] + byteList[done..] == byteList;
    RecordsDropTail(byteList[..done], byteList[done..], size);
  }

  lemma ThenAppend<T>(a: seq<T>, b: seq<T>, r: Result<seq<T>>)
    ensures Then(a + b, r) == Then(a, Then(b, r))
  {
    if r.Ok? {
      assert a + b + r.value == a + (b + r.value);
    }
  }

  /** `a` is made of whole records. */
  predicate Whole(a: seq<byte>, size: nat)
    requires size > 0
    decreases |a|
  {
    |a| == 0 || (|a| >= size && Whole(a[size..], size))
  }

  /** A whole record added after whole records is one more record. */
  lemma {:induction false} RecordsSnoc(a: seq<byte>, c: seq<byte>, size: nat)
    requires size > 0 && Whole(a, size) && |c| == size
    ensures Records(a + c, size) == Records(a, size) + [c]
    ensures Whole(a + c, size)
    decreases |a|
  {
    if |a| == 0 {
      assert a + c == c && c[..size] == c && c[size..] == [];
      assert Records(c[size..], size) == [];
    } else {
      assert (a + c)[..size] == a[..size] && (a + c)[size..] == a[size..] + c;
      RecordsSnoc(a[size..], c, size);
    }
  }

  /** Fewer than `size` bytes after whole records are dropped. */
  lemma {:induction false} RecordsDropTail(a: seq<byte>, c: seq<byte>, size: nat)
    requires size > 0 && Whole(a, size) && |c| < size
    ensures Records(a + c, size) == Records(a, size)
    decreases |a|
  {
    if |a| == 0 {
      assert a + c == c;
    } else {
      assert (a + c)[..size] == a[..size] && (a + c)[size..] == a[size..] + c;
      RecordsDropTail(a[size..], c, size);
    }
  }

  /** The number of records is the floor of |bs| / size. */
  lemma {:induction false} RecordsCount(bs: seq<byte>, size: nat)
    requires size > 0
    ensures |Records(bs, size)| * size <= |bs| < |Records(bs, size)| * size + size
    decreases |bs|
  {
    if |bs| >= size {
      RecordsCount(bs[size..], size);
      var n := |Records(bs[size..], size)|;
      assert (n + 1) * size == n * size + size;
    }
  }

  lemma MulStep(a: int, b: int, s: nat)
    ensures a < b ==> a * s + s <= b * s
  {
    if a < b {
      var d: nat := b - a - 1;
      assert b * s == a * s + s + d * s;
    }
  }

  lemma FloorDiv(n: nat, x: nat, size: nat)
    requires size > 0 && n * size <= x < n * size + size
    ensures n == x / size
  {
    var q := x / size;
    assert x == q * size + x % size;
    MulStep(n, q, size);
    MulStep(q, n, size);
  }

  /** Record k is bytes [k * size, (k + 1) * size). */
  lemma {:induction false} RecordsAt(bs: seq<byte>, size: nat, k: nat)
    requires size > 0 && k < |Records(bs, size)|
    ensures (k + 1) * size <= |bs| && Records(bs, size)[k] == bs[k * size..(k + 1) * size]
    decreases k
  {
    if k > 0 {
      var tail := bs[size..];
      RecordsAt(tail, size, k - 1);
      assert (k - 1) * size + size == k * size;
      assert k * size + size == (k + 1) * size;
      assert tail[(k - 1) * size..k * size] == bs[k * size..(k + 1) * size];
    }
  }

  /** BytesToVec returns |bytes| / size records: the bytes after the last
      whole record are dropped. */
  lemma RecordsLength(bs: seq<byte>, size: nat)
    requires size > 0
    ensures |Records(bs, size)| == |bs| / size
  {
    RecordsCount(bs, size);
    FloorDiv(|Records(bs, size)|, |bs|, size);
  }

  /** Two-digit hex tokens separated by single spaces, as the blob reader
      leaves a byte array. */
  function HexText(ts: seq<(char, char)>): string
    decreases |ts|
  {
    if |ts| == 0 then ""
    else if |ts| == 1 then [ts[0].0, ts[0].1]
    else [ts[0].0, ts[0].1, ' '] + HexText(ts[1..])
  }

  /** For single-space-separated two-digit tokens, the byte stage yields the
      tokens' values in order. */
  lemma {:induction false} HexTokens(ts: seq<(char, char)>)
    requires forall k :: 0 <= k < |ts| ==> IsHexDigit(ts[k].0) && IsHexDigit(ts[k].1)
    ensures HexBytes(HexText(ts)).Ok?
    ensures |HexBytes(HexText(ts)).value| == |ts|
    ensures forall k :: 0 <= k < |ts| ==>
              HexBytes(HexText(ts)).value[k] as int == 16 * HexValue(ts[k].0) + HexValue(ts[k].1)
    decreases |ts|
  {
    if |ts| > 0 {
      var s := HexText(ts);
      var pair := [ts[0].0, ts[0].1];
      GetByteHex(pair, 0);
      if |ts| == 1 {
        assert s[2..] == [];
      } else {
        HexTokens(ts[1..]);
        assert s[2..] == " " + HexText(ts[1..]);
        assert s[2..][1..] == HexText(ts[1..]);
      }
      assert PairByte(s[0], s[1]) == GetByte(pair, 0);
    }
  }

  /** A character other than a space left without a partner fails the byte
      stage; a trailing space changes nothing. */
  lemma {:induction false} HexBytesTrailing(s: string, c: char)
    requires HexBytes(s).Ok?
    ensures c != ' ' ==> HexBytes(s + [c]) == Err
    ensures c == ' ' ==> HexBytes(s + [c]) == HexBytes(s)
    decreases |s|
  {
    if s == [] {
      assert s + [c] == [c] && [c][1..] == [];
    } else if s[0] == ' ' {
      assert (s + [c])[1..] == s[1..] + [c];
      HexBytesTrailing(s[1..], c);
    } else {
      assert (s + [c])[2..] == s[2..] + [c];
      HexBytesTrailing(s[2..], c);
    }
  }

  // ---------------------------------------------------------------------------
  // Reading records as values

  function Pow256(k: nat): (p: nat)
    ensures p >= 1
  {
    if k == 0 then 1 else 256 * Pow256(k - 1)
  }

  /** The unsigned value of a little-endian record. */
  function LittleEndian(rec: seq<byte>): (n: nat)
    ensures n < Pow256(|rec|)
  {
    if rec == [] then 0 else rec[0] as nat + 256 * LittleEndian(rec[1..])
  }

  /** The `len` little-endian bytes of `n`. */
  function LittleEndianBytes(n: nat, len: nat): (rec: seq<byte>)
    ensures |rec| == len
  {
    if len == 0 then [] else [(n % 256) as byte] + LittleEndianBytes(n / 256, len - 1)
  }

  /** Reading a record and writing the value back gives the same bytes. */
  lemma {:induction false} LittleEndianRoundTrip(rec: seq<byte>)
    ensures LittleEndianBytes(LittleEndian(rec), |rec|) == rec
  {
    if rec != [] {
      LittleEndianRoundTrip(rec[1..]);
      var n := LittleEndian(rec);
      assert n % 256 == rec[0] as nat && n / 256 == LittleEndian(rec[1..]);
    }
  }

  /** Writing a value that fits and reading it back gives the value. */
  lemma {:induction false} LittleEndianValue(n: nat, len: nat)
    requires n < Pow256(len)
    ensures LittleEndian(LittleEndianBytes(n, len)) == n
  {
    if len > 0 {
      LittleEndianValue(n / 256, len - 1);
      var rec := LittleEndianBytes(n, len);
      assert rec[1..] == LittleEndianBytes(n / 256, len - 1);
    }
  }

  /** BytesToVec<float>: the four bytes of a record as the coordinate's bit
      pattern. */
  function WordOf(rec: seq<byte>): word
    requires |rec| == 4
  {
    assert Pow256(4) == 0x1_0000_0000;
    LittleEndian(rec) as word
  }

  /** BytesToVec<int>: the four bytes of a record as a 32-bit two's-complement
      integer. */
  function Int32Of(rec: seq<byte>): (v: int)
    requires |rec| == 4
    ensures -0x8000_0000 <= v < 0x8000_0000
  {
    var u := LittleEndian(rec);
    assert Pow256(4) == 0x1_0000_0000;
    if u < 0x8000_0000 then u else u - 0x1_0000_0000
  }

  /** The four bytes of a 32-bit integer read back as that integer, negative
      values included. */
  lemma Int32RoundTrip(v: int)
    requires -0x8000_0000 <= v < 0x8000_0000
    ensures Int32Of(LittleEndianBytes(if v < 0 then v + 0x1_0000_0000 else v, 4)) == v
  {
    assert Pow256(4) == 0x1_0000_0000;
    LittleEndianValue(if v < 0 then v + 0x1_0000_0000 else v, 4);
  }

  function WordValues(recs: seq<seq<byte>>): (ws: seq<word>)
    requires forall k :: 0 <= k < |recs| ==> |recs[k]| == 4
    ensures |ws| == |recs|
  {
    seq(|recs|, k requires 0 <= k < |recs| => WordOf(recs[k]))
  }

  function Int32s(recs: seq<seq<byte>>): (vs: seq<int>)
    requires forall k :: 0 <= k < |recs| ==> |recs[k]| == 4
    ensures |vs| == |recs|
  {
    seq(|recs|, k requires 0 <= k < |recs| => Int32Of(recs[k]))
  }

  function Bytes(recs: seq<seq<byte>>): (bs: seq<byte>)
    requires forall k :: 0 <= k < |recs| ==> |recs[k]| == 1
    ensures |bs| == |recs|
  {
    seq(|recs|, k requires 0 <= k < |recs| => recs[k][0])
  }

  /** BytesToVec<byte> returns the byte list itself. */
  lemma {:induction false} BytesRecords(bs: seq<byte>)
    ensures Bytes(Records(bs, 1)) == bs
    decreases |bs|
  {
    if bs != [] {
      BytesRecords(bs[1..]);
      assert Bytes(Records(bs, 1)) == [bs[0]] + Bytes(Records(bs[1..], 1));
    }
  }

  // ---------------------------------------------------------------------------
  // Vertices and half-edges

  /** Vector3: three coordinates, each an opaque 32-bit pattern. */
  datatype Vector3 = Vector3(x: word, y: word, z: word)

  /** Edge: the four bytes of a half-edge record. */
  datatype Edge = Edge(next: byte, twin: byte, origin: byte, face: byte)

  datatype Triangle = Triangle(p1: Vector3, p2: Vector3, p3: Vector3)

  /** The vertex loop: coordinates taken three at a time; a count that is not a
      multiple of three runs past the end of the list and raises. */
  function Vertices(cs: seq<word>): Result<seq<Vector3>>
    decreases |cs|
  {
    if cs == [] then Ok([])
    else if |cs| < 3 then Err
    else Then([Vector3(cs[0], cs[1], cs[2])], Vertices(cs[3..]))
  }

  /** The coordinates of vertices, in order. */
  function Coords(vs: seq<Vector3>): (cs: seq<word>)
    ensures |cs| == 3 * |vs|
  {
    if vs == [] then [] else [vs[0].x, vs[0].y, vs[0].z] + Coords(vs[1..])
  }

  /** The vertex loop succeeds exactly on a multiple of three coordinates, and
      listing the vertices' coordinates then gives back the input. */
  lemma {:induction false} VerticesShape(cs: seq<word>)
    ensures Vertices(cs).Ok? <==> |cs| % 3 == 0
    ensures Vertices(cs).Ok? ==> Coords(Vertices(cs).value) == cs
    decreases |cs|
  {
    if |cs| >= 3 {
      VerticesShape(cs[3..]);
      if Vertices(cs[3..]).Ok? {
        var vs := Vertices(cs).value;
        assert vs == [Vector3(cs[0], cs[1], cs[2])] + Vertices(cs[3..]).value;
        assert vs[1..] == Vertices(cs[3..]).value;
        assert cs == [cs[0], cs[1], cs[2]] + cs[3..];
      }
    }
  }

  /** Vertex k is coordinates 3k, 3k + 1 and 3k + 2. */
  lemma {:induction false} CoordsAt(vs: seq<Vector3>, k: nat)
    requires k < |vs|
    ensures vs[k] == Vector3(Coords(vs)[3 * k], Coords(vs)[3 * k + 1], Coords(vs)[3 * k + 2])
  {
    if k > 0 {
      CoordsAt(vs[1..], k - 1);
      assert Coords(vs)[3..] == Coords(vs[1..]);
    }
  }

  /** Main's loop from the coordinate list to the vertex list. */
  method GroupVertices(coords: seq<word>) returns (r: Result<seq<Vector3>>)
    ensures r == Vertices(coords)
  {
    var vertices: seq<Vector3> := [];
    var i := 0;
    assert coords[0..] == coords;
    ThenNil(Vertices(coords));
    while i < |coords|
      invariant i <= |coords|
      invariant Vertices(coords) == Then(vertices, Vertices(coords[i..]))
    {
      ghost var rest := coords[i..];
      if i + 2 >= |coords| {
        return Err;
      }
      assert rest[..3] == coords[i..i + 3] && rest[3..] == coords[i + 3..];
      var v := Vector3(coords[i], coords[i + 1], coords[i + 2]);
      ThenAppend(vertices, [v], Vertices(coords[i + 3..]));
      vertices := vertices + [v];
      i := i + 3;
    }
    assert coords[i..] == [] && vertices + [] == vertices;
    r := Ok(vertices);
  }

  /** The edge loop: bytes taken four at a time as Next, Twin, Origin, Face; a
      count that is not a multiple of four raises. */
  function Edges(bs: seq<byte>): Result<seq<Edge>>
    decreases |bs|
  {
    if bs == [] then Ok([])
    else if |bs| < 4 then Err
    else Then([Edge(bs[0], bs[1], bs[2], bs[3])], Edges(bs[4..]))
  }

  /** The bytes of half-edge records, in order. */
  function EdgeBytes(es: seq<Edge>): (bs: seq<byte>)
    ensures |bs| == 4 * |es|
  {
    if es == [] then [] else [es[0].next, es[0].twin, es[0].origin, es[0].face] + EdgeBytes(es[1..])
  }

  /** The edge loop succeeds exactly on a multiple of four bytes, and listing
      the edges' bytes then gives back the input. */
  lemma {:induction false} EdgesShape(bs: seq<byte>)
    ensures Edges(bs).Ok? <==> |bs| % 4 == 0
    ensures Edges(bs).Ok? ==> EdgeBytes(Edges(bs).value) == bs
    decreases |bs|
  {
    if |bs| >= 4 {
      EdgesShape(bs[4..]);
      if Edges(bs[4..]).Ok? {
        var es := Edges(bs).value;
        assert es == [Edge(bs[0], bs[1], bs[2], bs[3])] + Edges(bs[4..]).value;
        assert es[1..] == Edges(bs[4..]).value;
        assert bs == [bs[0], bs[1], bs[2], bs[3]] + bs[4..];
      }
    }
  }

  /** Edge k is bytes 4k to 4k + 3 as Next, Twin, Origin, Face. */
  lemma {:induction false} EdgeBytesAt(es: seq<Edge>, k: nat)
    requires k < |es|
    ensures es[k] == Edge(EdgeBytes(es)[4 * k], EdgeBytes(es)[4 * k + 1],
                          EdgeBytes(es)[4 * k + 2], EdgeBytes(es)[4 * k + 3])
  {
    if k > 0 {
      EdgeBytesAt(es[1..], k - 1);
      assert EdgeBytes(es)[4..] == EdgeBytes(es[1..]);
    }
  }

  /** Main's loop from the edge bytes to the half-edge list. */
  method GroupEdges(bytes: seq<byte>) returns (r: Result<seq<Edge>>)
    ensures r == Edges(bytes)
  {
    var edges: seq<Edge> := [];
    var i := 0;
    assert bytes[0..] == bytes;
    ThenNil(Edges(bytes));
    while i < |bytes|
      invariant i <= |bytes|
      invariant Edges(bytes) == Then(edges, Edges(bytes[i..]))
    {
      ghost var rest := bytes[i..];
      if i + 3 >= |bytes| {
        return Err;
      }
      assert rest[..4] == bytes[i..i + 4] && rest[4..] == bytes[i + 4..];
      var e := Edge(bytes[i], bytes[i + 1], bytes[i + 2], bytes[i + 3]);
      ThenAppend(edges, [e], Edges(bytes[i + 4..]));
      edges := edges + [e];
      i := i + 4;
    }
    assert bytes[i..] == [] && edges + [] == edges;
    r := Ok(edges);
  }

  // ---------------------------------------------------------------------------
  // The hull fan walk

  /** The bound on the fan walk's `iteration` counter: the walk stops, without
      error, on entering its body once the counter has passed this value, so it
      emits at most FanCap + 1 triangles per face. */
  const FanCap: nat := 10000

  /** The walk from `edge` with `iteration` bodies already run: while `edge` is
      not the face's start, emit the triangle of the start's origin, the edge's
      origin and the origin of the edge after it, then move on. An edge or
      vertex index past the end of its list raises. */
  function FanFrom(E: seq<Edge>, V: seq<Vector3>, start: nat, edge: nat, iteration: nat): (r: Result<seq<Triangle>>)
    requires start < |E|
    ensures r.Ok? ==> |r.value| <= if iteration > FanCap then 0 else FanCap + 1 - iteration
    decreases FanCap + 1 - iteration
  {
    if edge == start || iteration > FanCap then Ok([])
    else if edge >= |E| then Err
    else
      var nextEdge: nat := E[edge].next as nat;
      if nextEdge >= |E| || E[start].origin as int >= |V| || E[edge].origin as int >= |V|
         || E[nextEdge].origin as int >= |V| then Err
      else
        Then([Triangle(V[E[start].origin], V[E[edge].origin], V[E[nextEdge].origin])],
             FanFrom(E, V, start, nextEdge, iteration + 1))
  }

  /** The triangles one face of a hull contributes: the walk starts at the
      start edge's successor. */
  function Fan(E: seq<Edge>, V: seq<Vector3>, start: byte): (r: Result<seq<Triangle>>)
    ensures r.Ok? ==> |r.value| <= FanCap + 1
  {
    if start as int >= |E| then Err else FanFrom(E, V, start as nat, E[start].next as nat, 0)
  }

  /** The walk over one face, as Main runs it. */
  method HullFace(E: seq<Edge>, V: seq<Vector3>, startEdge: byte) returns (r: Result<seq<Triangle>>)
    ensures r == Fan(E, V, startEdge)
  {
    if startEdge as int >= |E| {
      return Err;
    }
    var start := startEdge as nat;
    var edge: nat := E[start].next as nat;
    var iteration: nat := 0;
    var triangles: seq<Triangle> := [];
    ThenNil(Fan(E, V, startEdge));
    while edge != start
      invariant iteration <= FanCap + 1
      invariant Fan(E, V, startEdge) == Then(triangles, FanFrom(E, V, start, edge, iteration))
      decreases FanCap + 1 - iteration
    {
      if iteration > FanCap {
        break;
      }
      iteration := iteration + 1;
      if edge >= |E| {
        return Err;
      }
      var nextEdge: nat := E[edge].next as nat;
      if nextEdge >= |E| || E[start].origin as int >= |V| || E[edge].origin as int >= |V|
         || E[nextEdge].origin as int >= |V| {
        return Err;
      }
      var t := Triangle(V[E[start].origin], V[E[edge].origin], V[E[nextEdge].origin]);
      ThenAppend(triangles, [t], FanFrom(E, V, start, nextEdge, iteration));
      triangles := triangles + [t];
      edge := nextEdge;
    }
    assert triangles + [] == triangles;
    r := Ok(triangles);
  }

  /** The edge reached from `e` after `k` steps along Next (an index past the
      end stays where it is). */
  function Nth(E: seq<Edge>, e: nat, k: nat): nat {
    if k == 0 then e
    else
      var p := Nth(E, e, k - 1);
      if p < |E| then E[p].next as nat else p
  }

  /** The chain from `s` returns to `s` after exactly n steps, through edges
      and origins that all exist. */
  predicate ClosedChain(E: seq<Edge>, V: seq<Vector3>, s: nat, n: nat) {
    1 <= n &&
    (forall k :: 0 <= k <= n ==> Nth(E, s, k) < |E| && E[Nth(E, s, k)].origin as int < |V|) &&
    Nth(E, s, n) == s && (forall k :: 0 < k < n ==> Nth(E, s, k) != s)
  }

  /** The triangle the walk emits at the edge k steps from s. */
  function FanTriangle(E: seq<Edge>, V: seq<Vector3>, s: nat, n: nat, k: nat): Triangle
    requires ClosedChain(E, V, s, n) && k < n
  {
    Triangle(V[E[s].origin], V[E[Nth(E, s, k)].origin], V[E[Nth(E, s, k + 1)].origin])
  }

  /** The walk from the edge `it + 1` steps along the chain, with `it` bodies
      run, emits the remaining triangles of the face. */
  lemma {:induction false} FanWalk(E: seq<Edge>, V: seq<Vector3>, s: nat, n: nat, it: nat, e: nat)
    requires ClosedChain(E, V, s, n) && n <= FanCap + 2 && it < n && e == Nth(E, s, it + 1)
    ensures FanFrom(E, V, s, e, it).Ok?
    ensures |FanFrom(E, V, s, e, it).value| == n - 1 - it
    ensures forall j :: 0 <= j < n - 1 - it ==>
              FanFrom(E, V, s, e, it).value[j] == FanTriangle(E, V, s, n, it + 1 + j)
    decreases n - it
  {
    if it + 1 < n {
      var e' := Nth(E, s, it + 2);
      FanWalk(E, V, s, n, it + 1, e');
      assert e' == E[e].next as nat;
      assert e != s;
      var rest := FanFrom(E, V, s, e', it + 1).value;
      var t := FanTriangle(E, V, s, n, it + 1);
      assert FanFrom(E, V, s, e, it) == Ok([t] + rest);
      forall j | 0 < j < n - 1 - it
        ensures ([t] + rest)[j] == FanTriangle(E, V, s, n, it + 1 + j)
      {
        assert ([t] + rest)[j] == rest[j - 1];
        assert it + 2 + (j - 1) == it + 1 + j;
      }
    } else {
      assert e == s;
    }
  }

  /** A face whose Next chain returns to its start s after n <= 10002 steps
      yields exactly n - 1 triangles (none when n = 1); with e_k the edge k
      steps from s, triangle k - 1 joins the origins of s, e_k and e_(k+1).
      The last one is the degenerate (s, e_(n-1), s). */
  lemma FanClosedFace(E: seq<Edge>, V: seq<Vector3>, s: byte, n: nat)
    requires ClosedChain(E, V, s as nat, n) && n <= FanCap + 2
    ensures Fan(E, V, s).Ok? && |Fan(E, V, s).value| == n - 1
    ensures forall j :: 0 <= j < n - 1 ==>
              Fan(E, V, s).value[j] ==
              Triangle(V[E[s].origin], V[E[Nth(E, s as nat, j + 1)].origin], V[E[Nth(E, s as nat, j + 2)].origin])
    ensures n >= 2 ==> Fan(E, V, s).value[n - 2].p3 == V[E[s].origin]
  {
    assert Nth(E, s as nat, 1) == E[s].next as nat;
    FanWalk(E, V, s as nat, n, 0, E[s].next as nat);
    forall j | 0 <= j < n - 1
      ensures Fan(E, V, s).value[j] ==
              Triangle(V[E[s].origin], V[E[Nth(E, s as nat, j + 1)].origin], V[E[Nth(E, s as nat, j + 2)].origin])
    {
      assert Fan(E, V, s).value[j] == FanTriangle(E, V, s as nat, n, 0 + 1 + j);
    }
  }

  /** Twin and Face never matter: two edge lists that agree on Next and Origin
      give the same walk. */
  lemma {:induction false} FanFromNextOrigin(E: seq<Edge>, E': seq<Edge>, V: seq<Vector3>,
                                             start: nat, edge: nat, iteration: nat)
    requires start < |E| == |E'|
    requires forall k :: 0 <= k < |E| ==> E[k].next == E'[k].next && E[k].origin == E'[k].origin
    ensures FanFrom(E, V, start, edge, iteration) == FanFrom(E', V, start, edge, iteration)
    decreases FanCap + 1 - iteration
  {
    if edge != start && iteration <= FanCap && edge < |E| {
      FanFromNextOrigin(E, E', V, start, E[edge].next as nat, iteration + 1);
    }
  }

  lemma FanNextOrigin(E: seq<Edge>, E': seq<Edge>, V: seq<Vector3>, s: byte)
    requires |E| == |E'|
    requires forall k :: 0 <= k < |E| ==> E[k].next == E'[k].next && E[k].origin == E'[k].origin
    ensures Fan(E, V, s) == Fan(E', V, s)
  {
    if s as int < |E| {
      FanFromNextOrigin(E, E', V, s as nat, E[s].next as nat, 0);
    }
  }

  /** All faces of a hull, in the order of the face list. */
  function Fans(E: seq<Edge>, V: seq<Vector3>, faces: seq<byte>): (r: Result<seq<Triangle>>)
    ensures r.Ok? ==> |r.value| <= (FanCap + 1) * |faces|
  {
    if faces == [] then Ok([])
    else
      match Fan(E, V, faces[0])
      case Err => Err
      case Ok(ts) => Then(ts, Fans(E, V, faces[1..]))
  }

  /** Main's loop over the face list. */
  method HullFaces(E: seq<Edge>, V: seq<Vector3>, faces: seq<byte>) returns (r: Result<seq<Triangle>>)
    ensures r == Fans(E, V, faces)
  {
    var triangles: seq<Triangle> := [];
    var i := 0;
    assert faces[0..] == faces;
    ThenNil(Fans(E, V, faces));
    while i < |faces|
      invariant i <= |faces|
      invariant Fans(E, V, faces) == Then(triangles, Fans(E, V, faces[i..]))
    {
      assert faces[i..][1..] == faces[i + 1..];
      var face := HullFace(E, V, faces[i]);
      if face.Err? {
        return Err;
      }
      ThenAppend(triangles, face.value, Fans(E, V, faces[i + 1..]));
      triangles := triangles + face.value;
      i := i + 1;
    }
    assert faces[i..] == [] && triangles + [] == triangles;
    r := Ok(triangles);
  }

  // ---------------------------------------------------------------------------
  // The mesh assembly

  /** The mesh loop: indices taken three at a time, each naming a vertex; an
      index outside the vertex list, or a count that is not a multiple of three,
      raises. */
  function Mesh(t: seq<int>, V: seq<Vector3>): Result<seq<Triangle>>
    decreases |t|
  {
    if t == [] then Ok([])
    else if |t| < 3 || !(0 <= t[0] < |V|) || !(0 <= t[1] < |V|) || !(0 <= t[2] < |V|) then Err
    else Then([Triangle(V[t[0]], V[t[1]], V[t[2]])], Mesh(t[3..], V))
  }

  /** The mesh succeeds exactly when there are 3m indices, all naming vertices;
      it then has m triangles, triangle k joining vertices t[3k], t[3k+1] and
      t[3k+2]. */
  lemma {:induction false} MeshShape(t: seq<int>, V: seq<Vector3>)
    ensures Mesh(t, V).Ok? <==> |t| % 3 == 0 && forall k :: 0 <= k < |t| ==> 0 <= t[k] < |V|
    ensures Mesh(t, V).Ok? ==>
              |Mesh(t, V).value| == |t| / 3 &&
              forall k :: 0 <= k < |t| / 3 ==>
                Mesh(t, V).value[k] == Triangle(V[t[3 * k]], V[t[3 * k + 1]], V[t[3 * k + 2]])
    decreases |t|
  {
    if |t| >= 3 {
      MeshShape(t[3..], V);
      assert forall k :: 3 <= k < |t| ==> t[k] == t[3..][k - 3];
      if Mesh(t, V).Ok? {
        var ms := Mesh(t, V).value;
        var rest := Mesh(t[3..], V).value;
        assert ms == [Triangle(V[t[0]], V[t[1]], V[t[2]])] + rest;
        forall k | 1 <= k < |t| / 3
          ensures ms[k] == Triangle(V[t[3 * k]], V[t[3 * k + 1]], V[t[3 * k + 2]])
        {
          assert ms[k] == rest[k - 1];
          assert 3 * (k - 1) + 3 == 3 * k;
        }
      }
    }
  }

  /** Main's loop from the index list to triangles. */
  method AssembleMesh(t: seq<int>, V: seq<Vector3>) returns (r: Result<seq<Triangle>>)
    ensures r == Mesh(t, V)
  {
    var triangles: seq<Triangle> := [];
    var i := 0;
    assert t[0..] == t;
    ThenNil(Mesh(t, V));
    while i < |t|
      invariant i <= |t|
      invariant Mesh(t, V) == Then(triangles, Mesh(t[i..], V))
    {
      ghost var rest := t[i..];
      if !(0 <= t[i] < |V|) || i + 1 >= |t| || !(0 <= t[i + 1] < |V|) || i + 2 >= |t|
         || !(0 <= t[i + 2] < |V|) {
        return Err;
      }
      assert rest[..3] == t[i..i + 3] && rest[3..] == t[i + 3..];
      var tri := Triangle(V[t[i]], V[t[i + 1]], V[t[i + 2]]);
      ThenAppend(triangles, [tri], Mesh(t[i + 3..], V));
      triangles := triangles + [tri];
      i := i + 3;
    }
    assert t[i..] == [] && triangles + [] == triangles;
    r := Ok(triangles);
  }
}
