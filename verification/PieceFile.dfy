/**
 * A shared file exchanged piece by piece (client_java/rz/File.java): a random
 * access file, its length in bytes, its piece size, and the bitmap of the
 * pieces present.  Java's 32-bit products and casts are written out.
 */
module PieceFile {
  import opened Wrappers
  import opened Bits
  import opened BitSets

  newtype byte = x: int | -128 <= x < 128

  // (int) x
  function Wrap32(x: int): int {
    (x + 0x8000_0000) % 0x1_0000_0000 - 0x8000_0000
  }

  // The number in the range of an int that has the same low 32 bits.
  lemma Wrap32Is(x: int, w: int)
    ensures w == Wrap32(x) <==> -0x8000_0000 <= w < 0x8000_0000 && (x - w) % 0x1_0000_0000 == 0
  {
    var q := (x + 0x8000_0000) / 0x1_0000_0000;
    assert x + 0x8000_0000 == q * 0x1_0000_0000 + (x + 0x8000_0000) % 0x1_0000_0000;
    assert x - Wrap32(x) == q * 0x1_0000_0000;
  }

  function Zeros(n: nat): seq<byte> {
    seq(n, _ => 0)
  }

  // RandomAccessFile.write at a position: a gap past the end reads as zeros.
  function WriteAt(content: seq<byte>, pos: nat, data: seq<byte>): seq<byte> {
    var padded := if |content| < pos then content + Zeros(pos - |content|) else content;
    padded[..pos] + data + if |padded| > pos + |data| then padded[pos + |data|..] else []
  }

  // RandomAccessFile.read into a fresh array of n bytes.
  function ReadAt(content: seq<byte>, pos: nat, n: nat): (r: seq<byte>)
    ensures |r| == n
  {
    seq(n, k requires 0 <= k < n => if pos + k < |content| then content[pos + k] else 0)
  }

  // FileChannel.truncate
  function Truncated(content: seq<byte>, len: nat): seq<byte> {
    if |content| > len then content[..len] else content
  }

  // getPieceCount: the cast binds tighter than the division.
  function PieceCount(length: nat, pieceSize: nat): int
    requires pieceSize >= 1
  {
    JavaDiv(Wrap32(length + (pieceSize - 1)), pieceSize)
  }

  // The length in pieces, without overflow.
  function TruePieceCount(length: nat, pieceSize: nat): nat
    requires pieceSize >= 1
  {
    (length + pieceSize - 1) / pieceSize
  }

  // getPieceCount is right exactly when the sum it casts fits in 32 bits.
  lemma PieceCountRightIff(length: nat, pieceSize: nat)
    requires 1 <= pieceSize < 0x8000_0000
    ensures PieceCount(length, pieceSize) == TruePieceCount(length, pieceSize) <==> length + pieceSize - 1 < 0x8000_0000
  {
    var x := length + pieceSize - 1;
    var w := Wrap32(x);
    if x < 0x8000_0000 {
      assert w == x;
    } else {
      assert w <= x - 0x1_0000_0000;
      DivApart(w, x, pieceSize);
    }
  }

  lemma DivApart(w: int, x: nat, d: nat)
    requires 1 <= d < 0x8000_0000 <= x && w <= x - 0x1_0000_0000
    ensures JavaDiv(w, d) < x / d
  {
    QuotientPositive(x, d);
    if w >= 0 {
      DivideOrder(w, x - d, d);
      assert (x - d) / d == x / d - 1 by { QuotientShift(x, d); }
    } else {
      assert (-w) / d >= 0;
    }
  }

  lemma QuotientShift(x: nat, d: nat)
    requires 1 <= d <= x
    ensures (x - d) / d == x / d - 1
  {
    assert x - d == (x / d - 1) * d + x % d;
    QuotientUnique(x - d, d, x / d - 1, x % d);
  }

  lemma QuotientPositive(x: nat, d: nat)
    requires 1 <= d <= x
    ensures x / d >= 1
  {
    QuotientShift(x, d);
    assert (x - d) / d >= 0;
  }

  lemma DivideOrder(a: nat, b: nat, d: nat)
    requires 1 <= d && a <= b
    ensures a / d <= b / d
  {
    var qa, qb := a / d, b / d;
    assert a == qa * d + a % d && b == qb * d + b % d;
    SmallMultiple(qa - qb, d);
    assert (qa - qb) * d == qa * d - qb * d;
  }

  // ----- what one write and one read do

  datatype ReadError = NoPart | Failure

  // The offset of a piece: a 32-bit product.
  function Offset(pieceSize: nat, index: int): int {
    Wrap32(pieceSize * index)
  }

  // The content after writePiece; a negative offset makes seek throw.
  function AfterWrite(content: seq<byte>, length: nat, pieceSize: nat, index: int, data: seq<byte>): seq<byte>
    requires pieceSize >= 1
  {
    var pos := Offset(pieceSize, index);
    if pos < 0 then content
    else
      var written := WriteAt(content, pos, data);
      if index == PieceCount(length, pieceSize) - 1 then Truncated(written, length) else written
  }

  // What readPiece answers; a negative index above -8 is judged by bit 7.
  function Serve(content: seq<byte>, pieceSize: nat, members: set<int>, bytes: nat, index: int)
    : Result<seq<byte>, ReadError>
  {
    if !(0 <= JavaDiv(index, 8) < bytes) then Err(Failure)
    else if (if index >= 0 then index else 7) !in members then Err(NoPart)
    else if Offset(pieceSize, index) < 0 then Err(Failure)
    else Ok(ReadAt(content, Offset(pieceSize, index), pieceSize))
  }

  // The n bytes of content from pos on; zeros behind its end.
  predicate Holds(data: seq<byte>, content: seq<byte>, pos: nat, n: nat) {
    |data| == n && forall k :: 0 <= k < n ==> data[k] == if pos + k < |content| then content[pos + k] else 0
  }

  // Byte k of a file in which data were written at pos; a gap is filled with zeros.
  function ByteAfter(content: seq<byte>, pos: nat, data: seq<byte>, k: nat): byte {
    if pos <= k < pos + |data| then data[k - pos]
    else if k < |content| then content[k]
    else 0
  }

  class File {
    const name: string
    const key: string
    const length: nat
    const pieceSize: nat
    const bufferMap: BitSet
    var content: seq<byte>

    ghost predicate Valid() {
      1 <= pieceSize < 0x8000_0000
    }

    // A file being downloaded, on top of whatever is on disk.
    constructor Incomplete(name: string, length: nat, pieceSize: nat, key: string, onDisk: seq<byte>)
      requires 1 <= pieceSize < 0x8000_0000 && 0 <= PieceCount(length, pieceSize)
      ensures Valid() && fresh(bufferMap) && fresh(bufferMap.bits)
      ensures this.name == name && this.length == length && this.pieceSize == pieceSize && this.key == key
      ensures content == onDisk && bufferMap.Members() == {}
      ensures bufferMap.bits.Length == (PieceCount(length, pieceSize) + 7) / 8
    {
      this.name, this.length, this.pieceSize, this.key := name, length, pieceSize, key;
      content := onDisk;
      bufferMap := new BitSet(PieceCount(length, pieceSize));
    }

    // A seeded file: every bit of its bitmap is set.
    constructor Seeded(name: string, pieceSize: nat, key: string, onDisk: seq<byte>)
      requires 1 <= pieceSize < 0x8000_0000 && 0 <= PieceCount(|onDisk|, pieceSize)
      ensures Valid() && fresh(bufferMap) && fresh(bufferMap.bits)
      ensures this.name == name && length == |onDisk| && this.pieceSize == pieceSize && this.key == key
      ensures content == onDisk
      ensures bufferMap.bits.Length == (PieceCount(length, pieceSize) + 7) / 8
      ensures forall i :: i in bufferMap.Members() <==> 0 <= i < 8 * bufferMap.bits.Length
    {
      this.name, this.length, this.pieceSize, this.key := name, |onDisk|, pieceSize, key;
      content := onDisk;
      bufferMap := new BitSet(PieceCount(|onDisk|, pieceSize));
      new;
      bufferMap.SetAll();
    }

    // readPiece
    method ReadPiece(index: int) returns (r: Result<seq<byte>, ReadError>)
      requires Valid()
      ensures r == Serve(content, pieceSize, bufferMap.Members(), bufferMap.bits.Length, index)
      ensures !bufferMap.InBounds(index) ==> r == Err(Failure)
      ensures 0 <= index < 8 * bufferMap.bits.Length && index !in bufferMap.Members() ==> r == Err(NoPart)
      ensures index in bufferMap.Members() && Wrap32(pieceSize * index) < 0 ==> r == Err(Failure)
      ensures index in bufferMap.Members() && Wrap32(pieceSize * index) >= 0 ==>
                r.Ok? && Holds(r.value, content, Wrap32(pieceSize * index), pieceSize)
    {
      var startPos := Offset(pieceSize, index);
      var completed := bufferMap.Test(index);
      if completed.None? {
        r := Err(Failure);
      } else if !completed.value {
        r := Err(NoPart);
      } else if startPos < 0 {
        r := Err(Failure);
      } else {
        r := Ok(ReadAt(content, startPos, pieceSize));
      }
    }

    // writePiece; !ok stands for an exception, after the data is on disk when
    // only the bitmap index is out of bounds.
    method WritePiece(index: int, data: seq<byte>) returns (ok: bool)
      requires Valid()
      modifies this`content, bufferMap.bits
      ensures content == AfterWrite(old(content), length, pieceSize, index, data)
      ensures var pos := Wrap32(pieceSize * index);
              if pos < 0 then content == old(content)
              else
                var end := if |old(content)| > pos + |data| then |old(content)| else pos + |data|;
                && |content| == (if index == PieceCount(length, pieceSize) - 1 && end > length then length else end)
                && forall k :: 0 <= k < |content| ==> content[k] == ByteAfter(old(content), pos, data, k)
      ensures ok == (Offset(pieceSize, index) >= 0 && bufferMap.InBounds(index))
      ensures bufferMap.Members() == old(bufferMap.Members()) + if ok && index >= 0 then {index} else {}
    {
      var pos := Offset(pieceSize, index);
      if pos < 0 {
        return false;
      }
      content := WriteAt(content, pos, data);
      if index == PieceCount(length, pieceSize) - 1 {
        content := Truncated(content, length);
      }
      ok := bufferMap.Set(index);
    }
  }

  // ----- reassembly

  type Write = (int, seq<byte>)

  function WriteAll(content: seq<byte>, length: nat, pieceSize: nat, ws: seq<Write>): seq<byte>
    requires pieceSize >= 1
  {
    if ws == [] then content
    else
      var (index, piece) := ws[|ws| - 1];
      AfterWrite(WriteAll(content, length, pieceSize, ws[..|ws| - 1]), length, pieceSize, index, piece)
  }

  // What a peer's readPiece returns for piece i of the same content.
  function Piece(source: seq<byte>, pieceSize: nat, i: nat): seq<byte> {
    ReadAt(source, pieceSize * i, pieceSize)
  }

  predicate SameAt(content: seq<byte>, source: seq<byte>, k: nat)
    requires k < |source|
  {
    k < |content| && content[k] == source[k]
  }

  // The bytes from lo to hi are those of the source, as far as it goes.
  ghost predicate Matches(content: seq<byte>, source: seq<byte>, lo: nat, hi: nat) {
    forall k: nat :: lo <= k < hi && k < |source| ==> SameAt(content, source, k)
  }

  // Piece i of the source is in place.
  ghost predicate InPlace(content: seq<byte>, source: seq<byte>, pieceSize: nat, i: nat) {
    Matches(content, source, pieceSize * i, pieceSize * i + pieceSize)
  }

  // The sizes for which nothing overflows.
  predicate FitsInt(length: nat, pieceSize: nat) {
    1 <= length && 1 <= pieceSize && length + pieceSize - 1 < 0x8000_0000
  }

  lemma CountBounds(length: nat, pieceSize: nat)
    requires FitsInt(length, pieceSize)
    ensures PieceCount(length, pieceSize) == TruePieceCount(length, pieceSize) >= 1
    ensures var n := TruePieceCount(length, pieceSize);
            pieceSize * (n - 1) < length <= pieceSize * n
  {
    var x := length + pieceSize - 1;
    var n := x / pieceSize;
    assert Wrap32(x) == x;
    assert x == pieceSize * n + x % pieceSize;
    QuotientPositive(x, pieceSize);
    assert pieceSize * (n - 1) == pieceSize * n - pieceSize;
  }

  lemma PieceOffset(length: nat, pieceSize: nat, i: nat)
    requires FitsInt(length, pieceSize) && i < TruePieceCount(length, pieceSize)
    ensures Offset(pieceSize, i) == pieceSize * i < length
    ensures i < TruePieceCount(length, pieceSize) - 1 ==> pieceSize * i + pieceSize < length
  {
    CountBounds(length, pieceSize);
    var n := TruePieceCount(length, pieceSize);
    MultiplyOrder(pieceSize, i, n - 1);
    if i < n - 1 {
      MultiplyOrder(pieceSize, i + 1, n - 1);
      assert pieceSize * (i + 1) == pieceSize * i + pieceSize;
    }
  }

  lemma MultiplyOrder(p: nat, a: int, b: int)
    requires a <= b
    ensures p * a <= p * b
  {
    assert p * (b - a) >= 0;
    assert p * (b - a) == p * b - p * a;
  }

  lemma Apart(p: nat, i: nat, j: nat)
    requires i != j
    ensures p * i + p <= p * j || p * j + p <= p * i
  {
    if i < j {
      MultiplyOrder(p, i + 1, j);
      assert p * (i + 1) == p * i + p;
    } else {
      MultiplyOrder(p, j + 1, i);
      assert p * (j + 1) == p * j + p;
    }
  }

  lemma WriteAtBytes(content: seq<byte>, pos: nat, data: seq<byte>)
    ensures var w := WriteAt(content, pos, data);
            && |w| == (if |content| > pos + |data| then |content| else pos + |data|)
            && (forall k :: pos <= k < pos + |data| ==> w[k] == data[k - pos])
            && (forall k :: 0 <= k < |content| && !(pos <= k < pos + |data|) ==> w[k] == content[k])
  {
  }

  // What is written at offset p: source bytes, zero-padded past its end.
  predicate Written(content: seq<byte>, source: seq<byte>, p: nat, size: nat, after: seq<byte>) {
    var w := WriteAt(content, p, ReadAt(source, p, size));
    after == w || after == Truncated(w, |source|)
  }

  // One byte of the file after the write.
  lemma WrittenByte(content: seq<byte>, source: seq<byte>, p: nat, size: nat, after: seq<byte>, k: nat)
    requires Written(content, source, p, size, after) && k < |source|
    ensures p <= k < p + size ==> SameAt(after, source, k)
    ensures !(p <= k < p + size) && SameAt(content, source, k) ==> SameAt(after, source, k)
  {
    WriteAtBytes(content, p, ReadAt(source, p, size));
    var w := WriteAt(content, p, ReadAt(source, p, size));
    hide WriteAt;
    if p <= k < p + size {
      assert k < |w| && w[k] == ReadAt(source, p, size)[k - p] == source[k];
    } else if SameAt(content, source, k) {
      assert k < |w| && w[k] == content[k];
    }
  }

  lemma WrittenMatches(content: seq<byte>, source: seq<byte>, p: nat, size: nat, after: seq<byte>)
    requires Written(content, source, p, size, after)
    ensures Matches(after, source, p, p + size)
  {
    hide Written, SameAt;
    forall k: nat | p <= k < p + size && k < |source|
      ensures SameAt(after, source, k)
    {
      WrittenByte(content, source, p, size, after, k);
    }
  }

  lemma OthersMatch(content: seq<byte>, source: seq<byte>, p: nat, size: nat, after: seq<byte>, lo: nat, hi: nat)
    requires Written(content, source, p, size, after)
    requires Matches(content, source, lo, hi) && (hi <= p || p + size <= lo)
    ensures Matches(after, source, lo, hi)
  {
    hide Written, SameAt;
    forall k: nat | lo <= k < hi && k < |source|
      ensures SameAt(after, source, k)
    {
      WrittenByte(content, source, p, size, after, k);
    }
  }

  // What writePiece leaves for a piece of the source.
  lemma PieceWritten(content: seq<byte>, source: seq<byte>, pieceSize: nat, j: nat)
    requires FitsInt(|source|, pieceSize) && j < TruePieceCount(|source|, pieceSize)
    ensures var after := AfterWrite(content, |source|, pieceSize, j, Piece(source, pieceSize, j));
            && Written(content, source, pieceSize * j, pieceSize, after)
            && (|content| <= |source| || j == TruePieceCount(|source|, pieceSize) - 1 ==> |after| <= |source|)
  {
    CountBounds(|source|, pieceSize);
    PieceOffset(|source|, pieceSize, j);
    WriteAtBytes(content, pieceSize * j, Piece(source, pieceSize, j));
    hide PieceCount, TruePieceCount, Offset, WriteAt;
  }

  // Writing piece j puts it in place, disturbs no other, and never leaves the
  // file longer than it should be once it is not.
  lemma WriteOnePiece(content: seq<byte>, source: seq<byte>, pieceSize: nat, j: nat)
    requires FitsInt(|source|, pieceSize) && j < TruePieceCount(|source|, pieceSize)
    ensures var after := AfterWrite(content, |source|, pieceSize, j, Piece(source, pieceSize, j));
            && InPlace(after, source, pieceSize, j)
            && (forall i: nat :: InPlace(content, source, pieceSize, i) ==> InPlace(after, source, pieceSize, i))
            && (|content| <= |source| || j == TruePieceCount(|source|, pieceSize) - 1 ==> |after| <= |source|)
  {
    PieceWritten(content, source, pieceSize, j);
    hide AfterWrite, Written, Matches, TruePieceCount;
    var after := AfterWrite(content, |source|, pieceSize, j, Piece(source, pieceSize, j));
    WrittenMatches(content, source, pieceSize * j, pieceSize, after);
    forall i: nat | InPlace(content, source, pieceSize, i)
      ensures InPlace(after, source, pieceSize, i)
    {
      if i != j {
        Apart(pieceSize, i, j);
        OthersMatch(content, source, pieceSize * j, pieceSize, after, pieceSize * i, pieceSize * i + pieceSize);
      }
    }
  }

  // The writes of the pieces listed in `order`, all read from the source.
  function PieceWrites(source: seq<byte>, pieceSize: nat, order: seq<nat>): (ws: seq<Write>)
    ensures |ws| == |order|
  {
    seq(|order|, k requires 0 <= k < |order| => (order[k], Piece(source, pieceSize, order[k])))
  }

  lemma {:induction false} WritesPutInPlace(onDisk: seq<byte>, source: seq<byte>, pieceSize: nat, order: seq<nat>)
    requires FitsInt(|source|, pieceSize)
    requires forall i :: i in order ==> i < TruePieceCount(|source|, pieceSize)
    ensures var after := WriteAll(onDisk, |source|, pieceSize, PieceWrites(source, pieceSize, order));
            && (forall i :: i in order ==> InPlace(after, source, pieceSize, i))
            && (TruePieceCount(|source|, pieceSize) - 1 in order ==> |after| <= |source|)
  {
    if order != [] {
      var n := |order| - 1;
      var ws := PieceWrites(source, pieceSize, order);
      assert ws[..n] == PieceWrites(source, pieceSize, order[..n]);
      assert forall i :: i in order[..n] ==> i in order;
      assert order[n] in order;
      hide InPlace, TruePieceCount, AfterWrite;
      WritesPutInPlace(onDisk, source, pieceSize, order[..n]);
      WriteOnePiece(WriteAll(onDisk, |source|, pieceSize, ws[..n]), source, pieceSize, order[n]);
      assert forall i :: i in order ==> i in order[..n] || i == order[n];
      hide WriteAll, PieceWrites;
    }
  }

  // Once every piece has been written at least once, in any order and with any
  // repeats, the file is the source byte for byte, whatever was on disk before.
  lemma Reassembled(onDisk: seq<byte>, source: seq<byte>, pieceSize: nat, order: seq<nat>)
    requires FitsInt(|source|, pieceSize)
    requires forall i: nat :: i in order <==> i < TruePieceCount(|source|, pieceSize)
    ensures WriteAll(onDisk, |source|, pieceSize, PieceWrites(source, pieceSize, order)) == source
  {
    var after := WriteAll(onDisk, |source|, pieceSize, PieceWrites(source, pieceSize, order));
    var n := TruePieceCount(|source|, pieceSize);
    CountBounds(|source|, pieceSize);
    WritesPutInPlace(onDisk, source, pieceSize, order);
    hide WriteAll, PieceWrites, TruePieceCount, PieceCount, InPlace;
    assert n - 1 in order;
    AllInPlace(after, source, pieceSize, n);
  }

  lemma AllInPlace(content: seq<byte>, source: seq<byte>, pieceSize: nat, n: nat)
    requires pieceSize >= 1 && |content| <= |source| <= pieceSize * n
    requires forall i: nat :: i < n ==> InPlace(content, source, pieceSize, i)
    ensures content == source
  {
    hide InPlace;
    forall k | 0 <= k < |source|
      ensures k < |content| && content[k] == source[k]
    {
      var i := PieceOfByte(k, pieceSize, n);
      MatchesAt(content, source, pieceSize, i, k);
    }
    if source != [] {
      var last := source[|source| - 1];
      assert |source| - 1 < |content|;
    }
  }

  lemma MatchesAt(content: seq<byte>, source: seq<byte>, pieceSize: nat, i: nat, k: nat)
    requires InPlace(content, source, pieceSize, i)
    requires pieceSize * i <= k < pieceSize * i + pieceSize && k < |source|
    ensures k < |content| && content[k] == source[k]
  {
    assert SameAt(content, source, k);
  }

  lemma PieceOfByte(k: nat, pieceSize: nat, n: nat) returns (i: nat)
    requires pieceSize >= 1 && k < pieceSize * n
    ensures i < n && pieceSize * i <= k < pieceSize * i + pieceSize
  {
    i := k / pieceSize;
    assert k == pieceSize * i + k % pieceSize;
    if i >= n {
      MultiplyOrder(pieceSize, n, i);
    }
  }
}
