/** The mup tool: the three nested headers filled in step by step, the image assembled in memory,
    and the image walked and checked. */
module MupTool {
  import opened Octets
  import opened MupFormat

  // ---------------------------------------------------------------------------------------
  // The headers as they lie in memory
  // ---------------------------------------------------------------------------------------

  const PACK_STRUCT := 160

  type Info = s: seq<Byte> | |s| == 128 witness seq(128, _ => 0)
  type NameField = s: seq<Byte> | |s| == NAME_LENGTH witness seq(NAME_LENGTH, _ => 0)

  datatype PackHeader = PackHeader(version: Word, product: Word, sw: Word, date: Word, count: Word, invalidate: Word, info: Info)
  datatype InventoryHeader = InventoryHeader(version: Word, offset: Word, size: Word, flash: Word, sw: Word, number: Word)
  datatype UnityHeader = UnityHeader(version: Word, product: Word, sw: Word, date: Word, flash: Word, length: Word,
                                     hash: Digest, crc: Word, name: NameField, info: Info)

  function Words(ws: seq<Word>): (b: seq<Byte>)
    ensures |b| == 4 * |ws|
  {
    if ws == [] then [] else Words(ws[..|ws| - 1]) + WordBytes(ws[|ws| - 1])
  }

  /** Magic, six words and what follows them. */
  function Record(ws: seq<Word>, tail: seq<Byte>): (b: seq<Byte>)
    requires |ws| == 6
    ensures |b| == 32 + |tail|
  {
    MAGIC + Words(ws) + tail
  }

  function PackBytes(h: PackHeader): seq<Byte> {
    Record([h.version, h.product, h.sw, h.date, h.count, h.invalidate], h.info)
  }

  function InventoryBytes(h: InventoryHeader): seq<Byte> {
    Record([h.version, h.offset, h.size, h.flash, h.sw, h.number], [])
  }

  function UnityBytes(h: UnityHeader): seq<Byte> {
    Record([h.version, h.product, h.sw, h.date, h.flash, h.length], h.hash + WordBytes(h.crc) + h.name + h.info)
  }

  lemma {:induction false} WordsAt(ws: seq<Word>, k: nat)
    requires k < |ws|
    ensures Words(ws)[4 * k..4 * k + 4] == WordBytes(ws[k])
  {
    var front := ws[..|ws| - 1];
    if k < |front| {
      WordsAt(front, k);
      assert Words(ws)[4 * k..4 * k + 4] == Words(front)[4 * k..4 * k + 4];
    }
  }

  lemma RecordWord(ws: seq<Word>, tail: seq<Byte>, k: nat)
    requires |ws| == 6 && k < 6
    ensures U32(Record(ws, tail), 8 + 4 * k) == ws[k]
  {
    var r := Record(ws, tail);
    WordsAt(ws, k);
    assert r[8 + 4 * k..8 + 4 * k + 4] == Words(ws)[4 * k..4 * k + 4];
    WordRoundTrip(r, 8 + 4 * k, ws[k]);
  }

  lemma RecordMarked(ws: seq<Word>, tail: seq<Byte>)
    requires |ws| == 6 && ws[0] == VERSION
    ensures Marked(Record(ws, tail))
  {
    RecordWord(ws, tail, 0);
  }

  /** An inventory header with these fields is the slot of the partition. */
  lemma InventoryBytesHold(h: InventoryHeader, p: Part)
    requires h.version == VERSION && h.size == Size(p) && h.flash == p.flash
    ensures SlotHolds(InventoryBytes(h), p, h.offset)
  {
    var ws := [h.version, h.offset, h.size, h.flash, h.sw, h.number];
    RecordMarked(ws, []);
    RecordWord(ws, [], 1);
    RecordWord(ws, [], 2);
    RecordWord(ws, [], 3);
  }

  lemma UnityTail(ws: seq<Word>, hash: Digest, crc: Word, name: NameField, info: Info)
    requires |ws| == 6
    ensures var u := Record(ws, hash + WordBytes(crc) + name + info);
            u[32..52] == hash && U32(u, 52) == crc && u[56..88] == name
  {
    var u := Record(ws, hash + WordBytes(crc) + name + info);
    assert u == MAGIC + Words(ws) + hash + WordBytes(crc) + name + info;
    assert u[52..56] == WordBytes(crc);
    WordRoundTrip(u, 52, crc);
  }

  /** What a unity header must say of a partition. */
  predicate Describes(hash: Hash, crc: Crc, h: UnityHeader, p: Part) {
    && h.version == VERSION && h.flash == p.flash && h.length == |p.data|
    && h.hash == hash(p.data) && h.crc == crc(p.data)
    && |p.name| < NAME_LENGTH && h.name[..|p.name|] == p.name && h.name[|p.name|] == 0
  }

  ghost predicate HeaderHolds(hash: Hash, crc: Crc, u: seq<Byte>, p: Part) {
    && |u| >= UNITY_STRUCT && Marked(u)
    && U32(u, 24) == p.flash && U32(u, 28) == |p.data|
    && u[32..52] == hash(p.data) && U32(u, 52) == crc(p.data)
    && |p.name| < NAME_LENGTH && u[56..88][..|p.name|] == p.name && u[56..88][|p.name|] == 0
  }

  lemma UnityBytesHold(hash: Hash, crc: Crc, h: UnityHeader, p: Part)
    requires Describes(hash, crc, h, p)
    ensures HeaderHolds(hash, crc, UnityBytes(h), p)
  {
    var ws := [h.version, h.product, h.sw, h.date, h.flash, h.length];
    var tail := h.hash + WordBytes(h.crc) + h.name + h.info;
    RecordMarked(ws, tail);
    RecordWord(ws, tail, 4);
    RecordWord(ws, tail, 5);
    UnityTail(ws, h.hash, h.crc, h.name, h.info);
  }

  /** The words the reader only prints are in their places, too. */
  lemma PrintedWords(p: PackHeader, u: UnityHeader)
    ensures U32(PackBytes(p), 12) == p.product && U32(PackBytes(p), 16) == p.sw && U32(PackBytes(p), 20) == p.date
    ensures U32(UnityBytes(u), 12) == u.product && U32(UnityBytes(u), 16) == u.sw && U32(UnityBytes(u), 20) == u.date
  {
    var ws, vs := [p.version, p.product, p.sw, p.date, p.count, p.invalidate], [u.version, u.product, u.sw, u.date, u.flash, u.length];
    var tail := u.hash + WordBytes(u.crc) + u.name + u.info;
    RecordWord(ws, p.info, 1);
    RecordWord(ws, p.info, 2);
    RecordWord(ws, p.info, 3);
    RecordWord(vs, tail, 1);
    RecordWord(vs, tail, 2);
    RecordWord(vs, tail, 3);
  }

  /** Header, gap, data and pad make up the region of a partition. */
  lemma RegionAssembled(hash: Hash, crc: Crc, header: seq<Byte>, gap: seq<Byte>, p: Part, pad: seq<Byte>)
    requires |header| == UNITY_STRUCT && HeaderHolds(hash, crc, header, p)
    requires |gap| == HEADER_SIZE - UNITY_STRUCT && HEADER_SIZE + |p.data| + |pad| == Size(p)
    ensures RegionHolds(hash, crc, header + gap + p.data + pad, p)
  {
    var u, n := header + gap + p.data + pad, |p.name|;
    assert u[..UNITY_STRUCT] == header;
    FromFront(u, header);
    SliceOfSlice(u, 56, 88, 0, n);
    assert u[HEADER_SIZE..HEADER_SIZE + |p.data|] == p.data;
  }

  lemma FromFront(u: seq<Byte>, header: seq<Byte>)
    requires |header| == UNITY_STRUCT && |u| >= UNITY_STRUCT && u[..UNITY_STRUCT] == header
    ensures Marked(u) == Marked(header) && U32(u, 24) == U32(header, 24) && U32(u, 28) == U32(header, 28)
    ensures U32(u, 52) == U32(header, 52) && u[32..52] == header[32..52] && u[56..88] == header[56..88]
  {
    assert u[..8] == header[..8];
    WordOfSlice(u, 0, UNITY_STRUCT, 8);
    WordOfSlice(u, 0, UNITY_STRUCT, 24);
    WordOfSlice(u, 0, UNITY_STRUCT, 28);
    WordOfSlice(u, 0, UNITY_STRUCT, 52);
  }

  lemma HeaderAndData(base: seq<Byte>, header: seq<Byte>, data: seq<Byte>)
    requires |header| == UNITY_STRUCT && |base| == HEADER_SIZE + |data|
    ensures var u := Overwrite(Overwrite(base, 0, header), HEADER_SIZE, data);
            |u| == |base| && u[..UNITY_STRUCT] == header && u[HEADER_SIZE..] == data
  {
  }

  /** Memory nobody has written to yet. */
  method Unwritten(n: nat) returns (s: seq<Byte>)
    ensures |s| == n
  {
    var a := new Byte[n];
    s := a[..];
  }

  const SOFTWARE_UPDATE: seq<Byte> :=
    [0x53, 0x6F, 0x66, 0x74, 0x77, 0x61, 0x72, 0x65, 0x20, 0x55, 0x70, 0x64, 0x61, 0x74, 0x65, 0]

  // ---------------------------------------------------------------------------------------
  // Writing
  // ---------------------------------------------------------------------------------------

  class SwUnity {
    var header: UnityHeader
    var childData: seq<Byte>
    var data: seq<Byte>

    constructor (now: Word)
      ensures header.version == VERSION
    {
      new;
      var info := Unwritten(128);
      var name := Unwritten(NAME_LENGTH);
      header := UnityHeader(VERSION, 0x11321000, 101, now, 0, 0, seq(20, _ => 0), 0, name, Overwrite(info, 0, SOFTWARE_UPDATE));
      childData, data := [], [];
    }

    method SetProductCode(code: Word)
      modifies this`header
      ensures header == old(header).(product := code)
    {
      header := header.(product := code);
    }

    /** Fills in what the header says of the partition and lays out header and data. */
    method SetPartition(hash: Hash, crc: Crc, p: Part)
      requires header.version == VERSION && NameFits(p.name) && HEADER_SIZE + |p.data| < 0x1_0000_0000
      modifies this
      ensures |data| == HEADER_SIZE + |p.data| && HeaderHolds(hash, crc, data[..UNITY_STRUCT], p)
      ensures data[HEADER_SIZE..] == p.data
    {
      header := header.(flash := p.flash);
      header := header.(name := Overwrite(Overwrite(header.name, 0, p.name), |p.name|, [0]));
      header := header.(length := |p.data|);
      childData := p.data;
      header := header.(hash := hash(childData));
      header := header.(crc := crc(childData));
      UnityBytesHold(hash, crc, header, p);
      data := Unwritten(HEADER_SIZE + |childData|);
      HeaderAndData(data, UnityBytes(header), childData);
      data := Overwrite(data, 0, UnityBytes(header));
      data := Overwrite(data, HEADER_SIZE, childData);
    }
  }

  class SwInventory {
    var header: InventoryHeader
    var unity: SwUnity
    var data: seq<Byte>
    var childData: seq<Byte>

    constructor (now: Word)
      ensures fresh(unity) && header.version == VERSION && unity.header.version == VERSION
    {
      header := InventoryHeader(VERSION, 0, 0, 0, 0, 0);
      unity := new SwUnity(now);
      data, childData := [], [];
    }

    ghost predicate Holds(hash: Hash, crc: Crc, p: Part, offset: nat)
      reads this
    {
      && header.offset == offset
      && SlotHolds(data, p, offset) && RegionHolds(hash, crc, childData, p)
    }

    /** The header is first laid out with the size of the data, and again if that was padded. */
    method SetPartition(hash: Hash, crc: Crc, p: Part, offset: Word)
      requires header.version == VERSION && unity.header.version == VERSION
      requires NameFits(p.name) && Size(p) < 0x1_0000_0000
      modifies this, unity
      ensures Holds(hash, crc, p, offset)
    {
      header := header.(flash := p.flash);
      header := header.(offset := offset);
      header := header.(size := |p.data| + HEADER_SIZE);
      unity.SetPartition(hash, crc, p);
      data := InventoryBytes(header);
      childData := unity.data;
      ghost var front := childData[..UNITY_STRUCT];
      ghost var gap, pad := childData[UNITY_STRUCT..HEADER_SIZE], [];
      if |childData| % 0x200 != 0 {
        var more := Unwritten(0x200 - |childData| % 0x200);
        childData := childData + more;
        pad := more;
        header := header.(size := |childData|);
        data := InventoryBytes(header);
      }
      assert childData == front + gap + p.data + pad;
      RegionAssembled(hash, crc, front, gap, p, pad);
      InventoryBytesHold(header, p);
    }
  }

  /** `data` copied into a buffer. */
  method MemCopy(buf: array<Byte>, at: nat, data: seq<Byte>)
    requires at + |data| <= buf.Length
    modifies buf
    ensures buf[..] == Overwrite(old(buf[..]), at, data)
  {
    forall k | 0 <= k < |data| {
      buf[at + k] := data[k];
    }
  }

  /** The image after the two copies for partition `i`. */
  function Placed(image: seq<Byte>, i: nat, slot: seq<Byte>, offset: nat, region: seq<Byte>): (r: seq<Byte>)
    requires i < SLOTS && |slot| == INVENTORY_STRUCT && IMAGES + offset + |region| <= |image|
    ensures |r| == |image|
  {
    Overwrite(Overwrite(image, Slot(i), slot), IMAGES + offset, region)
  }

  method CopyBoth(image: array<Byte>, i: nat, slot: seq<Byte>, offset: nat, region: seq<Byte>)
    requires i < SLOTS && |slot| == INVENTORY_STRUCT && IMAGES + offset + |region| <= image.Length
    modifies image
    ensures image[..] == Placed(old(image[..]), i, slot, offset, region)
  {
    var at := HEADER_SIZE + i * SLOT_SIZE;
    ghost var mid := Overwrite(image[..], at, slot);
    MemCopy(image, at, slot);
    assert image[..] == mid && |mid| == image.Length;
    MemCopy(image, IMAGES + offset, region);
  }

  lemma PlacedIsThere(image: seq<Byte>, i: nat, slot: seq<Byte>, offset: nat, region: seq<Byte>)
    requires i < SLOTS && |slot| == INVENTORY_STRUCT && IMAGES + offset + |region| <= |image|
    ensures var r := Placed(image, i, slot, offset, region);
            && r[Slot(i)..Slot(i) + INVENTORY_STRUCT] == slot && r[IMAGES + offset..IMAGES + offset + |region|] == region
            && Marked(r) == Marked(image) && r[..PACK_STRUCT] == image[..PACK_STRUCT]
  {
    var mid := Overwrite(image, Slot(i), slot);
    OverwriteKeeps(image, Slot(i), slot, 0, PACK_STRUCT);
    OverwriteKeeps(mid, IMAGES + offset, region, 0, PACK_STRUCT);
    FrontKept(image, Slot(i), slot);
    FrontKept(mid, IMAGES + offset, region);
    OverwriteHolds(image, Slot(i), slot);
    OverwriteKeeps(mid, IMAGES + offset, region, Slot(i), Slot(i) + INVENTORY_STRUCT);
    OverwriteHolds(mid, IMAGES + offset, region);
  }

  lemma PlacedKeepsSlice(image: seq<Byte>, i: nat, slot: seq<Byte>, offset: nat, region: seq<Byte>, a: nat, b: nat)
    requires i < SLOTS && |slot| == INVENTORY_STRUCT && IMAGES + offset + |region| <= |image|
    requires a <= b <= Slot(i) || IMAGES <= a <= b <= IMAGES + offset
    ensures Placed(image, i, slot, offset, region)[a..b] == image[a..b]
  {
    OverwriteKeeps(image, Slot(i), slot, a, b);
    OverwriteKeeps(Overwrite(image, Slot(i), slot), IMAGES + offset, region, a, b);
  }

  lemma PlacedKeeps(hash: Hash, crc: Crc, image: seq<Byte>, i: nat, slot: seq<Byte>, offset: nat, region: seq<Byte>,
                    p: Part, j: nat, at: nat)
    requires j < i < SLOTS && |slot| == INVENTORY_STRUCT && IMAGES + offset + |region| <= |image|
    requires Stored(hash, crc, image, p, j, at) && at + Size(p) <= offset
    ensures Stored(hash, crc, Placed(image, i, slot, offset, region), p, j, at)
  {
    PlacedKeepsSlice(image, i, slot, offset, region, Slot(j), Slot(j) + INVENTORY_STRUCT);
    PlacedKeepsSlice(image, i, slot, offset, region, IMAGES + at, IMAGES + at + Size(p));
  }

  /** One more partition copied into the image: it is there, and the ones before it still are. */
  lemma PlacePart(hash: Hash, crc: Crc, image: seq<Byte>, parts: seq<Part>, i: nat, slot: seq<Byte>, region: seq<Byte>, image': seq<Byte>)
    requires i < |parts| <= SLOTS && IMAGES + Offset(parts, i) + |region| <= |image|
    requires SlotHolds(slot, parts[i], Offset(parts, i)) && RegionHolds(hash, crc, region, parts[i])
    requires StoredUpTo(hash, crc, image, parts, i)
    requires image' == Placed(image, i, slot, Offset(parts, i), region)
    ensures StoredUpTo(hash, crc, image', parts, i + 1)
  {
    forall j | 0 <= j <= i ensures StoredAt(hash, crc, image', parts, j) {
      if j == i {
        PlacedNew(hash, crc, image, i, slot, Offset(parts, i), region, parts[i]);
      } else {
        PlacedKeepsAt(hash, crc, image, parts, i, slot, region, j);
      }
    }
  }

  lemma PlacedNew(hash: Hash, crc: Crc, image: seq<Byte>, i: nat, slot: seq<Byte>, offset: nat, region: seq<Byte>, p: Part)
    requires i < SLOTS && SlotHolds(slot, p, offset) && RegionHolds(hash, crc, region, p) && IMAGES + offset + |region| <= |image|
    ensures Stored(hash, crc, Placed(image, i, slot, offset, region), p, i, offset)
  {
    PlacedIsThere(image, i, slot, offset, region);
  }

  lemma PlacedKeepsAt(hash: Hash, crc: Crc, image: seq<Byte>, parts: seq<Part>, i: nat, slot: seq<Byte>, region: seq<Byte>, j: nat)
    requires j < i < |parts| <= SLOTS && |slot| == INVENTORY_STRUCT && IMAGES + Offset(parts, i) + |region| <= |image|
    requires StoredAt(hash, crc, image, parts, j)
    ensures StoredAt(hash, crc, Placed(image, i, slot, Offset(parts, i), region), parts, j)
  {
    OffsetGrows(parts, j, i);
    PlacedKeeps(hash, crc, image, i, slot, Offset(parts, i), region, parts[j], j, Offset(parts, j));
  }

  ghost predicate StoredUpTo(hash: Hash, crc: Crc, image: seq<Byte>, parts: seq<Part>, n: nat)
    requires n <= |parts|
  {
    forall j :: 0 <= j < n ==> StoredAt(hash, crc, image, parts, j)
  }

  lemma FrontKept(image: seq<Byte>, at: nat, data: seq<Byte>)
    requires 12 <= at && at + |data| <= |image|
    ensures Marked(Overwrite(image, at, data)) == Marked(image)
  {
    OverwriteKeeps(image, at, data, 0, 8);
    OverwriteKeeps(image, at, data, 8, 12);
  }

  /** Partitions that the slots, the names and the words of the format can hold. */
  ghost predicate Fits(parts: seq<Part>) {
    |parts| <= SLOTS && ImageLength(parts) < 0x1_0000_0000 && forall p :: p in parts ==> NameFits(p.name)
  }

  class SwPack {
    var header: PackHeader
    var inventory: seq<SwInventory>
    var curOffset: Word
    ghost var parts: seq<Part>

    ghost predicate Valid(hash: Hash, crc: Crc)
      reads this, inventory
    {
      && header.version == VERSION && Fits(parts) && |inventory| == |parts| && curOffset == Offset(parts, |parts|)
      && forall i :: 0 <= i < |inventory| ==> HoldsAt(hash, crc, i)
    }

    ghost predicate HoldsAt(hash: Hash, crc: Crc, i: nat)
      requires i < |inventory| == |parts|
      reads this, inventory
    {
      inventory[i].Holds(hash, crc, parts[i], Offset(parts, i))
    }

    constructor (hash: Hash, crc: Crc, now: Word)
      ensures Valid(hash, crc) && parts == []
    {
      new;
      var info := Unwritten(128);
      header := PackHeader(VERSION, 0x11321000, 101, now, 0, 0, Overwrite(info, 0, SOFTWARE_UPDATE));
      inventory, curOffset, parts := [], 0, [];
    }

    /** A partition goes behind the ones before it; its place is where those end. */
    method AppendPartition(hash: Hash, crc: Crc, p: Part, now: Word)
      requires Valid(hash, crc) && |parts| < SLOTS && NameFits(p.name) && ImageLength(parts) + Size(p) < 0x1_0000_0000
      modifies this
      ensures Valid(hash, crc) && parts == old(parts) + [p] && header == old(header)
    {
      var inv := NewInventory(hash, crc, p, header.product, curOffset, now);
      ghost var n, before := |parts|, parts;
      AppendNumbers(parts, p);
      inventory := inventory + [inv];
      curOffset := curOffset + |inv.childData|;
      parts := parts + [p];
      forall i | 0 <= i < |inventory| ensures HoldsAt(hash, crc, i) {
        if i < n {
          assert old(HoldsAt(hash, crc, i));
          OffsetPrefix(before, [p], i);
          assert inventory[i] == old(inventory)[i] && parts[i] == before[i];
        } else {
          assert inventory[i] == inv && parts[i] == p;
        }
      }
    }

    /** The bytes of all headers, slots and regions together. */
    method TotalLength(hash: Hash, crc: Crc) returns (length: nat)
      requires Valid(hash, crc)
      ensures length == ImageLength(parts)
    {
      length := IMAGES;
      for i := 0 to |inventory|
        invariant length == IMAGES + Offset(parts, i)
      {
        assert HoldsAt(hash, crc, i);
        NextOffset(parts, i, inventory[i].childData, hash, crc);
        length := length + |inventory[i].childData|;
      }
    }

    /** The image in memory: every byte of a header, a slot and a region is as the partitions say. */
    method CreateImage(hash: Hash, crc: Crc) returns (image: array<Byte>)
      requires Valid(hash, crc)
      ensures fresh(image) && Layout(hash, crc, image[..], parts) && image[..][..PACK_STRUCT] == PackBytes(header)
    {
      var length := TotalLength(hash, crc);
      image := new Byte[length];
      MemCopy(image, 0, PackBytes(header));
      HeaderPlaced(header, image[..]);
      for i := 0 to |inventory|
        invariant Marked(image[..]) && StoredUpTo(hash, crc, image[..], parts, i)
        invariant image[..][..PACK_STRUCT] == PackBytes(header)
      {
        assert HoldsAt(hash, crc, i);
        CopyIn(hash, crc, image, inventory[i], parts, i);
      }
    }
  }

  lemma NextOffset(parts: seq<Part>, i: nat, region: seq<Byte>, hash: Hash, crc: Crc)
    requires i < |parts| && RegionHolds(hash, crc, region, parts[i])
    ensures Offset(parts, i + 1) == Offset(parts, i) + |region|
  {
  }

  method NewInventory(hash: Hash, crc: Crc, p: Part, product: Word, offset: Word, now: Word) returns (inv: SwInventory)
    requires NameFits(p.name) && Size(p) < 0x1_0000_0000
    ensures fresh(inv) && inv.Holds(hash, crc, p, offset) && |inv.childData| == Size(p)
  {
    inv := new SwInventory(now);
    inv.unity.SetProductCode(product);
    inv.SetPartition(hash, crc, p, offset);
  }

  /** The two copies for one partition. */
  method CopyIn(hash: Hash, crc: Crc, image: array<Byte>, inv: SwInventory, ghost parts: seq<Part>, i: nat)
    requires i < |parts| <= SLOTS && image.Length == ImageLength(parts) && Marked(image[..])
    requires inv.Holds(hash, crc, parts[i], Offset(parts, i))
    requires StoredUpTo(hash, crc, image[..], parts, i)
    modifies image
    ensures Marked(image[..]) && StoredUpTo(hash, crc, image[..], parts, i + 1)
    ensures image[..][..PACK_STRUCT] == old(image[..][..PACK_STRUCT])
  {
    ghost var before := image[..];
    OffsetGrows(parts, i + 1, |parts|);
    CopyBoth(image, i, inv.data, inv.header.offset, inv.childData);
    PlacedIsThere(before, i, inv.data, Offset(parts, i), inv.childData);
    PlacePart(hash, crc, before, parts, i, inv.data, inv.childData, image[..]);
  }

  lemma HeaderPlaced(h: PackHeader, image: seq<Byte>)
    requires h.version == VERSION && |image| >= PACK_STRUCT && image[..PACK_STRUCT] == PackBytes(h)
    ensures Marked(image)
  {
    RecordMarked([h.version, h.product, h.sw, h.date, h.count, h.invalidate], h.info);
    assert image[..8] == image[..PACK_STRUCT][..8];
    WordOfSlice(image, 0, PACK_STRUCT, 8);
  }

  lemma {:induction false} OffsetPrefix(parts: seq<Part>, more: seq<Part>, i: nat)
    requires i <= |parts|
    ensures Offset(parts + more, i) == Offset(parts, i)
  {
    if i > 0 {
      OffsetPrefix(parts, more, i - 1);
    }
  }

  lemma AppendNumbers(parts: seq<Part>, p: Part)
    ensures Offset(parts + [p], |parts|) == Offset(parts, |parts|)
    ensures Offset(parts + [p], |parts + [p]|) == Offset(parts, |parts|) + Size(p)
    ensures Fits(parts) && |parts| < SLOTS && NameFits(p.name) && ImageLength(parts) + Size(p) < 0x1_0000_0000 ==> Fits(parts + [p])
  {
    OffsetPrefix(parts, [p], |parts|);
  }

  // ---------------------------------------------------------------------------------------
  // Reading
  // ---------------------------------------------------------------------------------------

  /** The walk over the slots. */
  /** Whether a slot carries magic and version. */
  method IsValid(slot: seq<Byte>) returns (valid: bool)
    requires |slot| == INVENTORY_STRUCT
    ensures valid == Marked(slot)
  {
    for k := 0 to 8
      invariant forall j :: 0 <= j < k ==> slot[j] == MAGIC[j]
    {
      if slot[k] != MAGIC[k] { return false; }
    }
    if U32(slot, 8) != VERSION { return false; }
    return true;
  }

  /** Follows a slot into its region. */
  method ParseSlot(image: seq<Byte>, slot: seq<Byte>) returns (r: Outcome<Child>)
    requires |slot| == INVENTORY_STRUCT
    ensures r == ParseChild(image, slot)
  {
    var start := IMAGES + U32(slot, 12);
    var length := U32(slot, 16);
    if length < UNITY_STRUCT { return Defined(NoHeader); }
    if start + 32 > |image| { return Undefined; }
    var data := (length - HEADER_SIZE) % 0x1_0000_0000;
    if data > U32(image, start + 28) { data := U32(image, start + 28); }
    return Defined(Child(start, data));
  }

  /** One slot: the entry it holds if there are more to look at, else how the search ends. */
  method ParseEntry(image: seq<Byte>, i: nat) returns (r: Outcome<seq<Entry>>, more: bool)
    requires i < SLOTS
    ensures more ==> r.Defined? && ParseFrom(image, i) == Prepend(r.value, ParseFrom(image, i + 1))
    ensures !more ==> ParseFrom(image, i) == r
  {
    var at := HEADER_SIZE + i * SLOT_SIZE;
    if at + INVENTORY_STRUCT > |image| { return Undefined, false; }
    var slot := image[at..at + INVENTORY_STRUCT];
    var child := ParseSlot(image, slot);
    if child.Undefined? { return Undefined, false; }
    var valid := IsValid(slot);
    if !valid { return Defined([]), false; }
    return Defined([Entry(U32(slot, 20), child.value)]), true;
  }

  method Parse(image: seq<Byte>) returns (r: Outcome<seq<Entry>>)
    ensures r == ParseFrom(image, 0)
  {
    var found, i := [], 0;
    ghost var goal := ParseFrom(image, i);
    PrependNothing(goal);
    while i < SLOTS
      invariant i <= SLOTS && goal == Prepend(found, ParseFrom(image, i))
      decreases SLOTS - i
    {
      var one, more := ParseEntry(image, i);
      if !more { return Prepend(found, one); }
      PrependTwice(found, one.value, ParseFrom(image, i + 1));
      found := found + one.value;
      i := i + 1;
    }
    assert found + [] == found;
    return Defined(found);
  }

  /** One partition: its hash and its CRC are computed and compared. */
  method VerifyUnity(hash: Hash, crc: Crc, image: seq<Byte>, e: Entry) returns (r: Outcome<bool>)
    ensures r == VerifyEntry(hash, crc, image, e)
  {
    if e.child.NoHeader? { return Undefined; }
    var at, len := e.child.at, e.child.len;
    if at + HEADER_SIZE + len > |image| { return Undefined; }
    var data := image[at + HEADER_SIZE..at + HEADER_SIZE + len];
    var sameHash := image[at + 32..at + 52] == hash(data);
    var sameCrc := crc(data) == U32(image, at + 52);
    return Defined(sameCrc && sameHash);
  }

  method Verify(hash: Hash, crc: Crc, image: seq<Byte>, es: seq<Entry>) returns (r: Outcome<bool>)
    ensures r == VerifyAll(hash, crc, image, es)
  {
    var good, lost := true, false;
    for i := 0 to |es|
      invariant VerifyAll(hash, crc, image, es[..i]) == if lost then Undefined else Defined(good)
    {
      assert es[..i + 1][..i] == es[..i];
      var one := VerifyUnity(hash, crc, image, es[i]);
      if one.Undefined? {
        lost := true;
      } else if !one.value {
        good := false;
      }
    }
    assert es[..|es|] == es;
    return if lost then Undefined else Defined(good);
  }
}
