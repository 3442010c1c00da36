/** The fup tool itself: files with a position, blocks written and read through them, and the
    create, extract and reseller commands. */
module IrdTool {
  import opened Octets
  import opened IrdFormat
  import Crc16

  /** A binary file: its bytes and the position of the next access. */
  class BinFile {
    var bytes: seq<Byte>
    var pos: nat

    constructor (bytes: seq<Byte>)
      ensures this.bytes == bytes && pos == 0
    {
      this.bytes, pos := bytes, 0;
    }

    predicate Valid()
      reads this
    {
      pos <= |bytes|
    }

    /** What is left to read. */
    function Rest(): seq<Byte>
      reads this
      requires Valid()
    {
      bytes[pos..]
    }

    method Read(n: nat) returns (data: seq<Byte>)
      requires Valid()
      modifies this`pos
      ensures Valid() && |data| == if n <= |old(Rest())| then n else |old(Rest())|
      ensures data == old(Rest())[..|data|] && Rest() == old(Rest())[|data|..]
    {
      var m := if pos + n <= |bytes| then n else |bytes| - pos;
      data := bytes[pos..pos + m];
      pos := pos + m;
    }

    method Write(data: seq<Byte>)
      requires Valid()
      modifies this
      ensures Valid() && bytes == Overwrite(old(bytes), old(pos), data) && pos == old(pos) + |data|
    {
      bytes := bytes[..pos] + data + if pos + |data| <= |bytes| then bytes[pos + |data|..] else [];
      pos := pos + |data|;
    }

    method Seek(p: nat)
      requires p <= |bytes|
      modifies this`pos
      ensures Valid() && pos == p
    {
      pos := p;
    }
  }

  /** Two bytes of a buffer set to a 16-bit number. */
  method InsertShort(buf: array<Byte>, pos: nat, v: Short)
    requires pos + 2 <= buf.Length
    modifies buf
    ensures buf[..] == Overwrite(old(buf[..]), pos, Bytes(v))
  {
    buf[pos] := v / 256;
    buf[pos + 1] := v % 256;
  }

  method HeaderBuffer() returns (body: seq<Byte>)
    ensures body == HeaderBody(DEFAULT_RESELLER, 0xFFFF)
  {
    var buf := new Byte[16](_ => 0);
    InsertShort(buf, 0, HEADER_TYPE);
    InsertShort(buf, 2, DEFAULT_RESELLER);
    InsertShort(buf, 4, 0);
    InsertShort(buf, 6, 0);
    InsertShort(buf, 8, 0xFFFF);
    InsertShort(buf, 10, 0);
    InsertShort(buf, 12, 0);
    InsertShort(buf, 14, 0);
    body := buf[..];
  }

  lemma FieldsOver(kind: Short, n: Short, data: seq<Byte>)
    ensures Overwrite(Overwrite([0, 0, 0, 0] + data, 0, Bytes(kind)), 2, Bytes(n)) == Bytes(kind) + Bytes(n) + data
  {
    var first := Overwrite([0, 0, 0, 0] + data, 0, Bytes(kind));
    assert first == Bytes(kind) + ([0, 0] + data);
    assert first[..2] == Bytes(kind) && first[4..] == data;
  }

  /** A type and a length before the data. */
  method Labelled(kind: Short, data: seq<Byte>) returns (body: seq<Byte>)
    requires |data| <= DATA_BLOCKSIZE
    ensures body == DataBody(kind, data)
  {
    var n := |data|;
    var buf := new Byte[n + 4](i requires 0 <= i < n + 4 => if i < 4 then 0 else data[i - 4]);
    assert buf[..] == [0, 0, 0, 0] + data;
    InsertShort(buf, 0, kind);
    InsertShort(buf, 2, n);
    FieldsOver(kind, n, data);
    body := buf[..];
  }

  /** The next block of a file: up to DATA_BLOCKSIZE bytes behind a type and a length. */
  method DataBuffer(file: BinFile, kind: Short) returns (body: seq<Byte>, n: nat)
    requires file.Valid()
    modifies file`pos
    ensures file.Valid() && n == (if |old(file.Rest())| <= DATA_BLOCKSIZE then |old(file.Rest())| else DATA_BLOCKSIZE)
    ensures body == DataBody(kind, old(file.Rest())[..n]) && file.Rest() == old(file.Rest())[n..]
  {
    var data := file.Read(DATA_BLOCKSIZE);
    n := |data|;
    body := Labelled(kind, data);
  }

  method WriteFrame(sum: Checksum, ird: BinFile, body: seq<Byte>)
    requires ird.Valid() && ird.pos == |ird.bytes| && |body| + 2 < 0x10000
    modifies ird
    ensures ird.Valid() && ird.pos == |ird.bytes| && ird.bytes == old(ird.bytes) + Block(sum, body)
  {
    var crc := sum(body);
    ird.Write(Bytes(|body| + 2) + Bytes(crc));
    ird.Write(body);
  }

  /** Where the writer stands in a part: what it has yet to put into the image, and how many blocks. */
  ghost predicate ToWrite(sum: Checksum, kind: nat, data: seq<Byte>, todo: seq<Byte>, blocks: nat) {
    kind < MAX_PART_NUMBER && todo == Blocks(sum, kind, Pieces(data)) && blocks == |data| / DATA_BLOCKSIZE + 1
  }

  lemma FullPiece(sum: Checksum, kind: nat, data: seq<Byte>, todo: seq<Byte>, blocks: nat) returns (next: seq<Byte>)
    requires ToWrite(sum, kind, data, todo, blocks) && |data| >= DATA_BLOCKSIZE
    ensures todo == Block(sum, DataBody(kind, data[..DATA_BLOCKSIZE])) + next
    ensures blocks > 1 && ToWrite(sum, kind, data[DATA_BLOCKSIZE..], next, blocks - 1)
  {
    next := Blocks(sum, kind, Pieces(data[DATA_BLOCKSIZE..]));
    assert Pieces(data)[1..] == Pieces(data[DATA_BLOCKSIZE..]);
  }

  lemma LastPiece(sum: Checksum, kind: nat, data: seq<Byte>, todo: seq<Byte>, blocks: nat)
    requires ToWrite(sum, kind, data, todo, blocks) && |data| < DATA_BLOCKSIZE
    ensures todo == Block(sum, DataBody(kind, data)) && blocks == 1
  {
    assert Pieces(data)[1..] == [];
    assert Blocks(sum, kind, Pieces(data)) == Block(sum, DataBody(kind, Pieces(data)[0])) + [];
  }

  /** Writes one data block and returns the number of bytes it took from the file. */
  method WriteBlock(sum: Checksum, ird: BinFile, file: BinFile, kind: nat) returns (n: nat)
    requires ird != file && kind < MAX_PART_NUMBER && file.Valid() && ird.Valid() && ird.pos == |ird.bytes|
    modifies ird, file`pos
    ensures file.Valid() && ird.Valid() && ird.pos == |ird.bytes|
    ensures n == (if |old(file.Rest())| <= DATA_BLOCKSIZE then |old(file.Rest())| else DATA_BLOCKSIZE)
    ensures ird.bytes == old(ird.bytes) + Block(sum, DataBody(kind, old(file.Rest())[..n]))
    ensures file.Rest() == old(file.Rest())[n..]
  {
    var body: seq<Byte>;
    body, n := DataBuffer(file, kind);
    WriteFrame(sum, ird, body);
  }

  /** One round of the loop over a part, with what is left to do after it. */
  method WriteRound(sum: Checksum, ird: BinFile, file: BinFile, kind: nat, ghost todo: seq<Byte>, ghost blocks: nat)
      returns (n: nat, ghost next: seq<Byte>)
    requires ird != file && file.Valid() && ird.Valid() && ird.pos == |ird.bytes|
    requires ToWrite(sum, kind, file.Rest(), todo, blocks)
    modifies ird, file`pos
    ensures file.Valid() && ird.Valid() && ird.pos == |ird.bytes| && n <= DATA_BLOCKSIZE && ird.bytes + next == old(ird.bytes) + todo
    ensures n == DATA_BLOCKSIZE ==> blocks > 1 && ToWrite(sum, kind, file.Rest(), next, blocks - 1)
    ensures n < DATA_BLOCKSIZE ==> blocks == 1 && next == []
  {
    ghost var data, start := file.Rest(), ird.bytes;
    n := WriteBlock(sum, ird, file, kind);
    if n == DATA_BLOCKSIZE {
      next := FullPiece(sum, kind, data, todo, blocks);
      Reassociate(start, Block(sum, DataBody(kind, data[..n])), next);
    } else {
      assert data[..n] == data;
      LastPiece(sum, kind, data, todo, blocks);
      next := [];
    }
  }

  /** A counter of 16 bits that went around `wraps` times. */
  method CountUp(total: Short, ghost wraps: nat) returns (next: Short, ghost wraps': nat)
    ensures next + 0x10000 * wraps' == total + 0x10000 * wraps + 1
  {
    next := (total + 1) % 0x10000;
    wraps' := if next == 0 then wraps + 1 else wraps;
  }

  lemma CountIsRest(total: Short, wraps: nat, exact: nat)
    requires total + 0x10000 * wraps == exact
    ensures total == exact % 0x10000
  {
  }

  lemma Reassociate(a: seq<Byte>, b: seq<Byte>, c: seq<Byte>)
    ensures (a + b) + c == a + (b + c)
  {
  }

  /** The blocks of a file, until one is shorter than DATA_BLOCKSIZE; gives the new block count. */
  method WriteFile(sum: Checksum, ird: BinFile, file: BinFile, kind: nat, count: Short, ghost todo: seq<Byte>, ghost blocks: nat)
      returns (total: Short, ghost wraps: nat)
    requires ird != file && file.Valid() && ird.Valid() && ird.pos == |ird.bytes|
    requires ToWrite(sum, kind, file.Rest(), todo, blocks)
    modifies ird, file`pos
    ensures ird.Valid() && ird.pos == |ird.bytes| && ird.bytes == old(ird.bytes) + todo
    ensures total + 0x10000 * wraps == count + blocks
  {
    ghost var goal, left := ird.bytes + todo, blocks;
    total, wraps := count, 0;
    var n;
    ghost var next;
    n, next := WriteRound(sum, ird, file, kind, todo, blocks);
    while n == DATA_BLOCKSIZE
      invariant ird.Valid() && ird.pos == |ird.bytes| && file.Valid() && n <= DATA_BLOCKSIZE
      invariant ird.bytes + next == goal && left >= 1
      invariant n == DATA_BLOCKSIZE ==> left > 1 && ToWrite(sum, kind, file.Rest(), next, left - 1)
      invariant n < DATA_BLOCKSIZE ==> left == 1 && next == []
      invariant total + 0x10000 * wraps + left == count + blocks
      decreases left
    {
      total, wraps := CountUp(total, wraps);
      left := left - 1;
      n, next := WriteRound(sum, ird, file, kind, next, left);
    }
    total, wraps := CountUp(total, wraps);
  }

  /** One part, opened and written. */
  method WritePart(sum: Checksum, ird: BinFile, part: Part, count: Short) returns (total: Short, ghost wraps: nat)
    requires part.kind < MAX_PART_NUMBER && ird.Valid() && ird.pos == |ird.bytes|
    modifies ird
    ensures ird.Valid() && ird.pos == |ird.bytes|
    ensures ird.bytes == old(ird.bytes) + Blocks(sum, part.kind, Pieces(part.data))
    ensures total + 0x10000 * wraps == count + (|part.data| / DATA_BLOCKSIZE + 1)
  {
    var file := new BinFile(part.data);
    assert file.Rest() == part.data;
    ghost var todo, blocks := Blocks(sum, part.kind, Pieces(part.data)), |part.data| / DATA_BLOCKSIZE + 1;
    total, wraps := WriteFile(sum, ird, file, part.kind, count, todo, blocks);
  }

  /** A field of a body replaced. */
  method Patched(data: seq<Byte>, field: nat, v: Short) returns (body: seq<Byte>)
    requires field + 2 <= |data|
    ensures body == Overwrite(data, field, Bytes(v)) && |body| == |data|
  {
    var buf := new Byte[|data|](i requires 0 <= i < |data| => data[i]);
    assert buf[..] == data;
    InsertShort(buf, field, v);
    body := buf[..];
  }

  /** The header refresh of the create and reseller commands. */
  method RefreshHeader(sum: Checksum, ird: BinFile, len: nat, field: nat, v: Short)
    requires field + 2 <= len && 4 + len <= |ird.bytes|
    modifies ird
    ensures ird.bytes == Refresh(sum, old(ird.bytes), len, field, v)
  {
    ird.Seek(4);
    var data := ird.Read(len);
    assert data == ird.bytes[4..4 + len];
    var body := Patched(data, field, v);
    ird.Seek(4);
    ird.Write(body);
    var crc := sum(body);
    ird.Seek(2);
    ird.Write(Bytes(crc));
  }

  lemma FirstPart(sum: Checksum, parts: seq<Part>, i: nat)
    requires KindsOk(parts) && i < |parts|
    ensures Contents(sum, parts[i..]) == Blocks(sum, parts[i].kind, Pieces(parts[i].data)) + Contents(sum, parts[i + 1..])
    ensures BlockCount(parts[i..]) == |parts[i].data| / DATA_BLOCKSIZE + 1 + BlockCount(parts[i + 1..])
  {
  }

  method WriteParts(sum: Checksum, ird: BinFile, parts: seq<Part>) returns (total: Short)
    requires KindsOk(parts) && ird.Valid() && ird.pos == |ird.bytes|
    modifies ird
    ensures ird.bytes == old(ird.bytes) + Contents(sum, parts) && total == BlockCount(parts) % 0x10000
  {
    total := 0;
    ghost var goal, next, wraps := ird.bytes + Contents(sum, parts), Contents(sum, parts), 0;
    assert parts[0..] == parts;
    for i := 0 to |parts|
      invariant ird.Valid() && ird.pos == |ird.bytes|
      invariant ird.bytes + next == goal && next == Contents(sum, parts[i..])
      invariant total + 0x10000 * wraps + BlockCount(parts[i..]) == BlockCount(parts)
    {
      FirstPart(sum, parts, i);
      ghost var start, more := ird.bytes, 0;
      total, more := WritePart(sum, ird, parts[i], total);
      next, wraps := Contents(sum, parts[i + 1..]), wraps + more;
      Reassociate(start, Blocks(sum, parts[i].kind, Pieces(parts[i].data)), next);
    }
    assert parts[|parts|..] == [];
    CountIsRest(total, wraps, BlockCount(parts));
  }

  /** The create command. */
  method Create(sum: Checksum, parts: seq<Part>) returns (ird: BinFile)
    requires KindsOk(parts)
    ensures fresh(ird) && ird.bytes == Image(sum, parts)
  {
    ird := new BinFile([]);
    var header := HeaderBuffer();
    WriteFrame(sum, ird, header);
    var total := WriteParts(sum, ird, parts);
    ghost var contents := Contents(sum, parts);
    assert ird.bytes == Block(sum, header) + contents;
    RefreshRewritesBlock(sum, header, contents, 8, total);
    CountField(DEFAULT_RESELLER, 0xFFFF, total);
    RefreshHeader(sum, ird, 16, 8, total);
  }

  /** The length is kept in a byte. */
  lemma LengthInByte(n: nat)
    requires 6 <= n < 258
    ensures (n % 256 - 2) % 256 == n - 2
  {
  }

  /** The reseller command, on a file whose first block has a body of fewer than 256 bytes. */
  method ChangeReseller(sum: Checksum, ird: BinFile, reseller: nat)
    requires |ird.bytes| >= 2 && 6 <= ReadShort(ird.bytes, 0) < 258 && ReadShort(ird.bytes, 0) + 2 <= |ird.bytes|
    modifies ird
    ensures ird.bytes == Refresh(sum, old(ird.bytes), ReadShort(old(ird.bytes), 0) - 2, 2, reseller % 0x10000)
  {
    ird.Seek(0);
    var field := ird.Read(2);
    var len := ReadShort(field, 0) % 256;
    LengthInByte(ReadShort(field, 0));
    len := (len - 2) % 256;
    RefreshHeader(sum, ird, len, 2, reseller % 0x10000);
  }

  /** The extract command: reads blocks until the file ends or a block cannot be read. */
  method ExtractAll(sum: Checksum, file: BinFile) returns (r: Outcome)
    requires file.Valid() && file.pos == 0
    modifies file`pos
    ensures r == Extract(sum, file.bytes, true, NOTHING)
  {
    var x, first := NOTHING, true;
    while true
      invariant file.Valid()
      invariant Extract(sum, file.bytes, true, NOTHING) == Extract(sum, file.Rest(), first, x)
      decreases |file.Rest()|
    {
      var got := ReadNext(sum, file);
      if got.Stop? { return Extracted(x); }
      if got.TooShort? { return Undefined; }
      x := Take(x, first, got.body, got.checked);
      first := false;
    }
  }

  /** One call of readBlock: length, checksum and body, in three reads. */
  method ReadNext(sum: Checksum, file: BinFile) returns (r: Read)
    requires file.Valid()
    modifies file`pos
    ensures file.Valid() && r == ReadBlock(sum, old(file.Rest()))
    ensures r.Got? ==> file.Rest() == r.rest
  {
    ghost var rest := file.Rest();
    var field := file.Read(2);
    if |field| < 2 { return Stop; }
    assert ReadShort(field, 0) == ReadShort(rest, 0);
    var len := ReadShort(field, 0);
    if len == 0 { return Stop; }
    if len < 6 { return TooShort; }
    field := file.Read(2);
    var body := file.Read(len - 2);
    if |body| != len - 2 { return Stop; }
    assert ReadShort(field, 0) == ReadShort(rest, 2);
    assert body == rest[4..len + 2] && file.Rest() == rest[len + 2..];
    return Got(body, ReadShort(field, 0) == sum(body), file.Rest());
  }

  // ---------------------------------------------------------------------------------------
  // The checksum of the tool
  // ---------------------------------------------------------------------------------------

  function AsBits(data: seq<Byte>): seq<bv8> {
    seq(|data|, i requires 0 <= i < |data| => data[i] as bv8)
  }

  function AsBytes(bits: seq<bv8>): seq<Byte> {
    seq(|bits|, i requires 0 <= i < |bits| => bits[i] as int)
  }

  function CrcOf(body: seq<Byte>): Short { Crc16.Crc(0, AsBits(body)) as int }

  lemma NumbersApart(a: bv16, b: bv16)
    requires a != b
    ensures a as int != b as int
  {
    assert (a as int) as bv16 == a && (b as int) as bv16 == b;
  }

  lemma AsBitsBack(bits: seq<bv8>)
    ensures AsBits(AsBytes(bits)) == bits
  {
  }

  lemma CrcsApart(a: seq<bv8>, b: seq<bv8>)
    requires var c: bv16 := 0; Crc16.Crc(c, a) != Crc16.Crc(c, b)
    ensures CrcOf(AsBytes(a)) != CrcOf(AsBytes(b))
  {
    var c: bv16 := 0;
    AsBitsBack(a);
    AsBitsBack(b);
    NumbersApart(Crc16.Crc(c, a), Crc16.Crc(c, b));
  }

  /** A block in which two adjacent bytes of the body were changed is always noticed. */
  lemma AdjacentChangeIsNoticed(before: seq<bv8>, d1: bv8, d2: bv8, e1: bv8, e2: bv8, after: seq<bv8>, rest: seq<Byte>)
    requires d1 != e1 || d2 != e2
    requires 4 <= |before| + 2 + |after| && |before| + 2 + |after| + 2 < 0x10000
    ensures var body, other := AsBytes(before + [d1, d2] + after), AsBytes(before + [e1, e2] + after);
            ReadBlock(CrcOf, Overwrite(Block(CrcOf, body) + rest, 4, other)) == Got(other, false, rest)
  {
    var a, b, c: bv16 := before + [d1, d2] + after, before + [e1, e2] + after, 0;
    Crc16.AdjacentChangeDetected(c, before, d1, d2, e1, e2, after);
    CrcsApart(a, b);
    ChangedBodyIsNoticed(CrcOf, AsBytes(a), AsBytes(b), rest);
  }

  /** The remainder of a body, bit by bit, from zero. */
  function Remainder(body: seq<Byte>): Short { Crc16.BitSerial(0, AsBits(body)) as int }

  lemma CrcIsRemainder(body: seq<Byte>)
    ensures CrcOf(body) == Remainder(body)
  {
    var c: bv16 := 0;
    Crc16.CrcIsBitSerial(c, AsBits(body));
  }

  lemma {:induction false} SummedAlike(file: seq<Byte>)
    requires Summed(CrcOf, file)
    ensures Summed(Remainder, file)
    decreases |file|
  {
    if file != [] {
      var n := 256 * (file[0] as int) + file[1];
      CrcIsRemainder(file[4..n + 2]);
      SummedAlike(file[n + 2..]);
    }
  }

  /** Bytes two and three of every block of an image the tool creates are the remainder of the
      block's body in the division by 0x8005, bit by bit, from zero. */
  lemma ChecksumsAreRemainders(parts: seq<Part>)
    requires KindsOk(parts)
    ensures Summed(Remainder, Image(CrcOf, parts))
  {
    ImageIsSummed(CrcOf, parts);
    SummedAlike(Image(CrcOf, parts));
  }
}
