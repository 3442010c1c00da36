/** The IRD update format: blocks of at most DATA_BLOCKSIZE bytes with a type and a CRC, behind a
    header block that carries the number of blocks. What the writer puts into a file, and what the
    reader makes of any file. */
module IrdFormat {
  import opened Octets

  const DATA_BLOCKSIZE := 0x7FFA
  const MAX_PART_NUMBER := 17
  const HEADER_TYPE := 0x10
  const DEFAULT_RESELLER := 0x2303

  // ---------------------------------------------------------------------------------------
  // Fields and blocks
  // ---------------------------------------------------------------------------------------

  type Short = x: int | 0 <= x < 0x10000

  /** A 16-bit number, its high byte first. */
  function Bytes(v: Short): (b: seq<Byte>)
    ensures |b| == 2
  {
    [v / 256, v % 256]
  }

  function ReadShort(file: seq<Byte>, at: nat): Short
    requires at + 2 <= |file|
  {
    (file[at] as int) * 256 + file[at + 1]
  }

  /** The checksum of a body; the tool's is the CRC-16, and what follows holds for any. */
  type Checksum = seq<Byte> -> Short

  /** A block: length, checksum and body. The length counts the checksum and the body. */
  function Block(sum: Checksum, body: seq<Byte>): (b: seq<Byte>)
    requires |body| + 2 < 0x10000
    ensures |b| == |body| + 4
  {
    Bytes(|body| + 2) + Bytes(sum(body)) + body
  }

  /** The body of a data block: type, length and data. */
  function DataBody(kind: Short, data: seq<Byte>): (b: seq<Byte>)
    requires |data| <= DATA_BLOCKSIZE
    ensures |b| == |data| + 4
  {
    Bytes(kind) + Bytes(|data|) + data
  }

  function HeaderBody(reseller: Short, blocks: Short): (b: seq<Byte>)
    ensures |b| == 16
  {
    Bytes(HEADER_TYPE) + Bytes(reseller) + Bytes(0) + Bytes(0) + Bytes(blocks) + Bytes(0) + Bytes(0) + Bytes(0)
  }

  // ---------------------------------------------------------------------------------------
  // Parts
  // ---------------------------------------------------------------------------------------

  datatype Part = Part(kind: nat, data: seq<Byte>)

  /** A part is cut into full pieces and a last one that is shorter, and may be empty. */
  function Pieces(data: seq<Byte>): (p: seq<seq<Byte>>)
    ensures |p| == |data| / DATA_BLOCKSIZE + 1
    ensures forall d :: d in p ==> |d| <= DATA_BLOCKSIZE
    decreases |data|
  {
    if |data| < DATA_BLOCKSIZE then [data] else [data[..DATA_BLOCKSIZE]] + Pieces(data[DATA_BLOCKSIZE..])
  }

  function Blocks(sum: Checksum, kind: nat, pieces: seq<seq<Byte>>): seq<Byte>
    requires kind < MAX_PART_NUMBER && forall d :: d in pieces ==> |d| <= DATA_BLOCKSIZE
  {
    if pieces == [] then [] else Block(sum, DataBody(kind, pieces[0])) + Blocks(sum, kind, pieces[1..])
  }

  predicate KindsOk(parts: seq<Part>) { forall p :: p in parts ==> p.kind < MAX_PART_NUMBER }

  function Contents(sum: Checksum, parts: seq<Part>): seq<Byte>
    requires KindsOk(parts)
  {
    if parts == [] then [] else Blocks(sum, parts[0].kind, Pieces(parts[0].data)) + Contents(sum, parts[1..])
  }

  function BlockCount(parts: seq<Part>): nat {
    if parts == [] then 0 else |parts[0].data| / DATA_BLOCKSIZE + 1 + BlockCount(parts[1..])
  }

  /** The file the writer creates. Its block count is kept in 16 bits. */
  function Image(sum: Checksum, parts: seq<Part>): seq<Byte>
    requires KindsOk(parts)
  {
    Block(sum, HeaderBody(DEFAULT_RESELLER, BlockCount(parts) % 0x10000)) + Contents(sum, parts)
  }

  // ---------------------------------------------------------------------------------------
  // The reader
  // ---------------------------------------------------------------------------------------

  /** One call of readBlock: nothing more to read, a length too small for the fields the reader
      takes from the body, or a body with the verdict on its checksum. */
  datatype Read = Stop | TooShort | Got(body: seq<Byte>, checked: bool, rest: seq<Byte>)

  function ReadBlock(sum: Checksum, file: seq<Byte>): (r: Read)
    ensures r.Got? ==> |r.rest| < |file| && |r.body| >= 4
  {
    if |file| < 2 then Stop
    else
      var len := ReadShort(file, 0);
      if len == 0 then Stop
      else if len < 6 then TooShort
      else if |file| < len + 2 then Stop
      else Got(file[4..len + 2], ReadShort(file, 2) == sum(file[4..len + 2]), file[len + 2..])
  }

  /** What an extraction leaves: the files by type, the blocks read, those whose checksum the user
      is asked about, and those of an unknown type. */
  datatype Extraction = Extraction(files: map<nat, seq<Byte>>, blocks: nat, badChecksums: nat, unknown: nat)

  const NOTHING := Extraction(map[], 0, 0, 0)

  function Append(files: map<nat, seq<Byte>>, kind: nat, data: seq<Byte>): map<nat, seq<Byte>> {
    files[kind := (if kind in files then files[kind] else []) + data]
  }

  /** The effect of one block. */
  function Take(x: Extraction, first: bool, body: seq<Byte>, checked: bool): Extraction
    requires |body| >= 4
  {
    var kind := ReadShort(body, 0);
    var y := x.(blocks := x.blocks + 1, badChecksums := x.badChecksums + if checked then 0 else 1);
    if first && kind == HEADER_TYPE then y
    else if kind < MAX_PART_NUMBER then y.(files := Append(x.files, kind, body[4..]))
    else y.(unknown := x.unknown + 1)
  }

  datatype Outcome = Extracted(x: Extraction) | Undefined

  function Extract(sum: Checksum, file: seq<Byte>, first: bool, x: Extraction): Outcome
    decreases |file|
  {
    match ReadBlock(sum, file)
    case Stop => Extracted(x)
    case TooShort => Undefined
    case Got(body, checked, rest) => Extract(sum, rest, false, Take(x, first, body, checked))
  }

  // ---------------------------------------------------------------------------------------
  // Round trip
  // ---------------------------------------------------------------------------------------

  /** Every block written is read back whole, with a matching checksum. */
  lemma BlockRoundTrip(sum: Checksum, body: seq<Byte>, rest: seq<Byte>)
    requires 4 <= |body| && |body| + 2 < 0x10000
    ensures ReadBlock(sum, Block(sum, body) + rest) == Got(body, true, rest)
  {
  }

  lemma ExtractBlock(sum: Checksum, body: seq<Byte>, rest: seq<Byte>, first: bool, x: Extraction)
    requires 4 <= |body| && |body| + 2 < 0x10000
    ensures Extract(sum, Block(sum, body) + rest, first, x) == Extract(sum, rest, false, Take(x, first, body, true))
  {
  }

  function Joined(pieces: seq<seq<Byte>>): seq<Byte> {
    if pieces == [] then [] else pieces[0] + Joined(pieces[1..])
  }

  lemma {:induction false} PiecesJoin(data: seq<Byte>)
    ensures Joined(Pieces(data)) == data
    decreases |data|
  {
    if |data| < DATA_BLOCKSIZE {
      assert Pieces(data)[1..] == [];
    } else {
      assert Pieces(data)[1..] == Pieces(data[DATA_BLOCKSIZE..]);
      PiecesJoin(data[DATA_BLOCKSIZE..]);
    }
  }

  /** `n` more blocks with the data `data` for type `kind`. */
  function More(x: Extraction, kind: nat, data: seq<Byte>, n: nat): Extraction {
    x.(files := Append(x.files, kind, data), blocks := x.blocks + n)
  }

  lemma MoreTwice(x: Extraction, kind: nat, a: seq<Byte>, m: nat, b: seq<Byte>, n: nat)
    ensures More(More(x, kind, a, m), kind, b, n) == More(x, kind, a + b, m + n)
  {
    AppendTwice(x.files, kind, a, b);
  }

  function MorePieces(x: Extraction, kind: nat, pieces: seq<seq<Byte>>): Extraction
    decreases |pieces|
  {
    if pieces == [] then x else MorePieces(More(x, kind, pieces[0], 1), kind, pieces[1..])
  }

  /** Piece by piece, or all at once. */
  lemma {:induction false} PiecesAtOnce(x: Extraction, kind: nat, pieces: seq<seq<Byte>>)
    requires pieces != []
    ensures MorePieces(x, kind, pieces) == More(x, kind, Joined(pieces), |pieces|)
    decreases |pieces|
  {
    if |pieces| == 1 {
      assert pieces[1..] == [] && Joined(pieces) == pieces[0];
    } else {
      PiecesAtOnce(More(x, kind, pieces[0], 1), kind, pieces[1..]);
      MoreTwice(x, kind, pieces[0], 1, Joined(pieces[1..]), |pieces| - 1);
    }
  }

  lemma {:induction false} BlocksRoundTrip(sum: Checksum, kind: nat, pieces: seq<seq<Byte>>, rest: seq<Byte>, x: Extraction)
    requires kind < MAX_PART_NUMBER && (forall d :: d in pieces ==> |d| <= DATA_BLOCKSIZE)
    ensures Extract(sum, Blocks(sum, kind, pieces) + rest, false, x) == Extract(sum, rest, false, MorePieces(x, kind, pieces))
    decreases |pieces|
  {
    if pieces == [] {
      assert Blocks(sum, kind, pieces) + rest == rest;
    } else {
      BlocksSplit(sum, kind, pieces, rest);
      ExtractPiece(sum, kind, pieces[0], Blocks(sum, kind, pieces[1..]) + rest, x);
      BlocksRoundTrip(sum, kind, pieces[1..], rest, More(x, kind, pieces[0], 1));
    }
  }

  lemma BlocksSplit(sum: Checksum, kind: nat, pieces: seq<seq<Byte>>, rest: seq<Byte>)
    requires kind < MAX_PART_NUMBER && (forall d :: d in pieces ==> |d| <= DATA_BLOCKSIZE) && pieces != []
    ensures Blocks(sum, kind, pieces) + rest == Block(sum, DataBody(kind, pieces[0])) + (Blocks(sum, kind, pieces[1..]) + rest)
  {
  }

  lemma ExtractPiece(sum: Checksum, kind: nat, piece: seq<Byte>, rest: seq<Byte>, x: Extraction)
    requires kind < MAX_PART_NUMBER && |piece| <= DATA_BLOCKSIZE
    ensures Extract(sum, Block(sum, DataBody(kind, piece)) + rest, false, x) ==
            Extract(sum, rest, false, More(x, kind, piece, 1))
  {
  }

  lemma AppendTwice(files: map<nat, seq<Byte>>, kind: nat, a: seq<Byte>, b: seq<Byte>)
    ensures Append(Append(files, kind, a), kind, b) == Append(files, kind, a + b)
  {
    var had := if kind in files then files[kind] else [];
    assert (had + a) + b == had + (a + b);
  }

  /** The files by type: for each type that occurs, its parts one after the other. */
  function FilesOf(files: map<nat, seq<Byte>>, parts: seq<Part>): map<nat, seq<Byte>>
    decreases |parts|
  {
    if parts == [] then files else FilesOf(Append(files, parts[0].kind, parts[0].data), parts[1..])
  }

  function MoreParts(x: Extraction, parts: seq<Part>): Extraction {
    x.(files := FilesOf(x.files, parts), blocks := x.blocks + BlockCount(parts))
  }

  lemma PartAtOnce(x: Extraction, kind: nat, data: seq<Byte>)
    ensures MorePieces(x, kind, Pieces(data)) == More(x, kind, data, |data| / DATA_BLOCKSIZE + 1)
  {
    PiecesJoin(data);
    PiecesAtOnce(x, kind, Pieces(data));
  }

  /** Extracting the blocks of a part appends its data to the file of its type. */
  lemma PartRoundTrip(sum: Checksum, p: Part, rest: seq<Byte>, x: Extraction)
    requires p.kind < MAX_PART_NUMBER
    ensures Extract(sum, Blocks(sum, p.kind, Pieces(p.data)) + rest, false, x) ==
            Extract(sum, rest, false, More(x, p.kind, p.data, |p.data| / DATA_BLOCKSIZE + 1))
  {
    PartAtOnce(x, p.kind, p.data);
    BlocksRoundTrip(sum, p.kind, Pieces(p.data), rest, x);
  }

  lemma {:induction false} ContentsRoundTrip(sum: Checksum, parts: seq<Part>, x: Extraction)
    requires KindsOk(parts)
    ensures Extract(sum, Contents(sum, parts), false, x) == Extracted(MoreParts(x, parts))
    decreases |parts|
  {
    if parts != [] {
      var p := parts[0];
      PartRoundTrip(sum, p, Contents(sum, parts[1..]), x);
      ContentsRoundTrip(sum, parts[1..], More(x, p.kind, p.data, |p.data| / DATA_BLOCKSIZE + 1));
    }
  }

  lemma HeaderTaken(reseller: Short, blocks: Short, x: Extraction)
    ensures Take(x, true, HeaderBody(reseller, blocks), true) == x.(blocks := x.blocks + 1)
  {
  }

  /** Behind a header block with any fields, extraction goes on with the contents. */
  lemma HeaderRoundTrip(sum: Checksum, reseller: Short, blocks: Short, contents: seq<Byte>)
    ensures Extract(sum, Block(sum, HeaderBody(reseller, blocks)) + contents, true, NOTHING) ==
            Extract(sum, contents, false, NOTHING.(blocks := 1))
  {
    ExtractBlock(sum, HeaderBody(reseller, blocks), contents, true, NOTHING);
    HeaderTaken(reseller, blocks, NOTHING);
  }

  /** For every list of parts, extracting the created file gives for each type the concatenation of
      its parts in order; every checksum matches and no block is unknown. */
  lemma ImageRoundTrip(sum: Checksum, parts: seq<Part>)
    requires KindsOk(parts)
    ensures Extract(sum, Image(sum, parts), true, NOTHING) ==
            Extracted(Extraction(FilesOf(map[], parts), BlockCount(parts) + 1, 0, 0))
  {
    HeaderRoundTrip(sum, DEFAULT_RESELLER, BlockCount(parts) % 0x10000, Contents(sum, parts));
    ContentsRoundTrip(sum, parts, NOTHING.(blocks := 1));
  }

  // ---------------------------------------------------------------------------------------
  // The files by type, said without the fold
  // ---------------------------------------------------------------------------------------

  /** The parts of one type, joined. */
  function DataOf(parts: seq<Part>, kind: nat): seq<Byte> {
    if parts == [] then [] else (if parts[0].kind == kind then parts[0].data else []) + DataOf(parts[1..], kind)
  }

  lemma {:induction false} FilesAreJoinedParts(files: map<nat, seq<Byte>>, parts: seq<Part>, kind: nat)
    ensures kind in FilesOf(files, parts) <==> kind in files || exists p :: p in parts && p.kind == kind
    ensures kind in FilesOf(files, parts) ==>
            FilesOf(files, parts)[kind] == (if kind in files then files[kind] else []) + DataOf(parts, kind)
    decreases |parts|
  {
    if parts != [] {
      var next := Append(files, parts[0].kind, parts[0].data);
      FilesAreJoinedParts(next, parts[1..], kind);
      assert parts == [parts[0]] + parts[1..];
      if kind in FilesOf(files, parts) && kind == parts[0].kind {
        var had := if kind in files then files[kind] else [];
        assert next[kind] + DataOf(parts[1..], kind) == had + DataOf(parts, kind);
      }
    }
  }

  // ---------------------------------------------------------------------------------------
  // Rewriting the header in place
  // ---------------------------------------------------------------------------------------

  /** The three writes of a header refresh: the field in the body of `len` bytes, the body, the checksum. */
  function Refresh(sum: Checksum, file: seq<Byte>, len: nat, field: nat, v: Short): seq<Byte>
    requires field + 2 <= len && 4 + len <= |file|
  {
    var body := Overwrite(file[4..4 + len], field, Bytes(v));
    Overwrite(Overwrite(file, 4, body), 2, Bytes(sum(body)))
  }

  /** Refreshing the first block gives a well-formed block again: nothing but the field and the
      checksum has changed, and the checksum matches. */
  lemma RefreshRewritesBlock(sum: Checksum, body: seq<Byte>, rest: seq<Byte>, field: nat, v: Short)
    requires field + 2 <= |body| && |body| + 2 < 0x10000
    ensures Refresh(sum, Block(sum, body) + rest, |body|, field, v) == Block(sum, Overwrite(body, field, Bytes(v))) + rest
  {
  }

  lemma CountField(reseller: Short, a: Short, b: Short)
    ensures Overwrite(HeaderBody(reseller, a), 8, Bytes(b)) == HeaderBody(reseller, b)
  {
  }

  lemma ResellerField(a: Short, b: Short, blocks: Short)
    ensures Overwrite(HeaderBody(a, blocks), 2, Bytes(b)) == HeaderBody(b, blocks)
  {
  }

  /** Changing the reseller of a created image changes that field and the header's checksum, and
      nothing of what is extracted from it. */
  lemma ResellerChangeKeepsContents(sum: Checksum, parts: seq<Part>, reseller: Short)
    requires KindsOk(parts)
    ensures var changed := Refresh(sum, Image(sum, parts), 16, 2, reseller);
            && changed == Block(sum, HeaderBody(reseller, BlockCount(parts) % 0x10000)) + Contents(sum, parts)
            && Extract(sum, changed, true, NOTHING) == Extract(sum, Image(sum, parts), true, NOTHING)
  {
    var count := BlockCount(parts) % 0x10000;
    RefreshRewritesBlock(sum, HeaderBody(DEFAULT_RESELLER, count), Contents(sum, parts), 2, reseller);
    ResellerField(DEFAULT_RESELLER, reseller, count);
    ImageRoundTrip(sum, parts);
    HeaderRoundTrip(sum, reseller, count, Contents(sum, parts));
    ContentsRoundTrip(sum, parts, NOTHING.(blocks := 1));
  }

  /** A body replaced by one of the same length is noticed whenever the checksum tells them apart. */
  lemma ChangedBodyIsNoticed(sum: Checksum, body: seq<Byte>, other: seq<Byte>, rest: seq<Byte>)
    requires 4 <= |body| == |other| && |body| + 2 < 0x10000
    ensures ReadBlock(sum, Overwrite(Block(sum, body) + rest, 4, other)) == Got(other, sum(other) == sum(body), rest)
  {
  }

  // ---------------------------------------------------------------------------------------
  // The checksums of a file, byte by byte
  // ---------------------------------------------------------------------------------------

  /** The file is a row of blocks: each starts with the number of bytes that follow its first two,
      and the next two bytes are the checksum of the rest, high bytes first. */
  predicate Summed(sum: Checksum, file: seq<Byte>)
    decreases |file|
  {
    file == [] ||
    (|file| >= 4
     && var n := 256 * (file[0] as int) + file[1];
        && 2 <= n <= |file| - 2 && 256 * (file[2] as int) + file[3] == sum(file[4..n + 2])
        && Summed(sum, file[n + 2..]))
  }

  lemma BlockIsSummed(sum: Checksum, body: seq<Byte>, rest: seq<Byte>)
    requires |body| + 2 < 0x10000 && Summed(sum, rest)
    ensures Summed(sum, Block(sum, body) + rest)
  {
    var file := Block(sum, body) + rest;
    assert file[4..|body| + 4] == body && file[|body| + 4..] == rest;
  }

  lemma PieceIsSummed(sum: Checksum, kind: nat, piece: seq<Byte>, rest: seq<Byte>)
    requires kind < MAX_PART_NUMBER && |piece| <= DATA_BLOCKSIZE && Summed(sum, rest)
    ensures Summed(sum, Block(sum, DataBody(kind, piece)) + rest)
  {
    BlockIsSummed(sum, DataBody(kind, piece), rest);
  }

  lemma {:induction false} BlocksAreSummed(sum: Checksum, kind: nat, pieces: seq<seq<Byte>>, rest: seq<Byte>)
    requires kind < MAX_PART_NUMBER && (forall d :: d in pieces ==> |d| <= DATA_BLOCKSIZE) && Summed(sum, rest)
    ensures Summed(sum, Blocks(sum, kind, pieces) + rest)
    decreases |pieces|
  {
    if pieces == [] {
      assert Blocks(sum, kind, pieces) + rest == rest;
    } else {
      BlocksAreSummed(sum, kind, pieces[1..], rest);
      PieceIsSummed(sum, kind, pieces[0], Blocks(sum, kind, pieces[1..]) + rest);
      BlocksSplit(sum, kind, pieces, rest);
    }
  }

  lemma {:induction false} ContentsAreSummed(sum: Checksum, parts: seq<Part>)
    requires KindsOk(parts)
    ensures Summed(sum, Contents(sum, parts))
    decreases |parts|
  {
    if parts != [] {
      ContentsAreSummed(sum, parts[1..]);
      BlocksAreSummed(sum, parts[0].kind, Pieces(parts[0].data), Contents(sum, parts[1..]));
    }
  }

  /** Every block of a created image carries the checksum of its body. */
  lemma ImageIsSummed(sum: Checksum, parts: seq<Part>)
    requires KindsOk(parts)
    ensures Summed(sum, Image(sum, parts))
  {
    ContentsAreSummed(sum, parts);
    BlockIsSummed(sum, HeaderBody(DEFAULT_RESELLER, BlockCount(parts) % 0x10000), Contents(sum, parts));
  }
}
