/** The MUP update image: a pack header, eight inventory slots, and one padded region for each
    partition. Bytes nobody writes (gaps, pads, unused slots) are left open throughout: a statement
    about an image holds whatever they are. */
module MupFormat {
  import opened Octets

  type Word = x: int | 0 <= x < 0x1_0000_0000

  const HEADER_SIZE := 512
  const SLOT_SIZE := 64
  const SLOTS := 8
  const IMAGES := 1024
  const INVENTORY_STRUCT := 32
  const UNITY_STRUCT := 216
  const NAME_LENGTH := 32
  const VERSION := 100
  const MAGIC: seq<Byte> := [0x4D, 0x41, 0x52, 0x55, 0x53, 0x57, 0x55, 0x50]

  /** What the image stores to check a partition: twenty bytes of hash and a word of CRC. What
      follows holds for any two such functions. */
  type Digest = h: seq<Byte> | |h| == 20 witness seq(20, _ => 0)
  type Hash = seq<Byte> -> Digest
  type Crc = seq<Byte> -> Word

  // ---------------------------------------------------------------------------------------
  // Words, in the byte order of the host
  // ---------------------------------------------------------------------------------------

  function WordBytes(v: Word): (b: seq<Byte>)
    ensures |b| == 4
  {
    [v % 256, v / 256 % 256, v / 65536 % 256, v / 16777216]
  }

  /** The number some bytes stand for, least significant first. */
  function Number(b: seq<Byte>): nat {
    if b == [] then 0 else b[0] + 256 * Number(b[1..])
  }

  lemma NumberOfFour(b: seq<Byte>)
    requires |b| == 4
    ensures Number(b) == b[0] as int + 256 * (b[1] as int) + 65536 * (b[2] as int) + 16777216 * (b[3] as int)
    ensures Number(b) < 0x1_0000_0000
  {
    assert b[1..][1..] == b[2..] && b[2..][1..] == b[3..] && b[3..][1..] == [];
    assert Number(b[3..]) == b[3] as int;
    assert Number(b[2..]) == b[2] as int + 256 * (b[3] as int);
  }

  function U32(s: seq<Byte>, at: nat): Word
    requires at + 4 <= |s|
  {
    NumberOfFour(s[at..at + 4]);
    Number(s[at..at + 4])
  }

  lemma FourBytes(v: Word)
    ensures v == v % 256 + 256 * (v / 256 % 256) + 65536 * (v / 65536 % 256) + 16777216 * (v / 16777216)
  {
    DivideTwice(v, 256);
    DivideTwice(v, 65536);
  }

  lemma DivideTwice(v: nat, d: nat)
    requires d == 256 || d == 65536
    ensures v / (d * 256) == v / d / 256
  {
  }

  lemma WordRoundTrip(s: seq<Byte>, at: nat, v: Word)
    requires at + 4 <= |s| && s[at..at + 4] == WordBytes(v)
    ensures U32(s, at) == v
  {
    NumberOfFour(WordBytes(v));
    FourBytes(v);
  }

  lemma SliceOfSlice(s: seq<Byte>, a: nat, b: nat, c: nat, d: nat)
    requires a <= b <= |s| && c <= d <= b - a
    ensures s[a..b][c..d] == s[a + c..a + d]
  {
    assert forall k :: 0 <= k < d - c ==> s[a..b][c..d][k] == s[a + c..a + d][k];
  }

  lemma WordOfSlice(s: seq<Byte>, a: nat, b: nat, k: nat)
    requires a <= b <= |s| && k + 4 <= b - a
    ensures U32(s[a..b], k) == U32(s, a + k)
  {
    SliceOfSlice(s, a, b, k, k + 4);
  }

  // ---------------------------------------------------------------------------------------
  // What an image holds
  // ---------------------------------------------------------------------------------------

  datatype Part = Part(flash: Word, name: seq<Byte>, data: seq<Byte>)

  /** A name is a C string that fits its field with the terminator. */
  predicate NameFits(name: seq<Byte>) { |name| < NAME_LENGTH && 0 !in name }

  /** The next multiple of 512. */
  function RoundUp(n: nat): (r: nat)
    ensures n <= r < n + 512
  {
    if n % 512 != 0 then n + (512 - n % 512) else n
  }

  /** The bytes a partition takes in the image. */
  function Size(p: Part): (r: nat)
    ensures r >= HEADER_SIZE + |p.data|
  {
    RoundUp(HEADER_SIZE + |p.data|)
  }

  function Offset(parts: seq<Part>, i: nat): nat
    requires i <= |parts|
  {
    if i == 0 then 0 else Offset(parts, i - 1) + Size(parts[i - 1])
  }

  function ImageLength(parts: seq<Part>): nat { IMAGES + Offset(parts, |parts|) }

  /** Magic and version. */
  predicate Marked(s: seq<Byte>)
    requires |s| >= 12
  {
    s[..8] == [0x4D, 0x41, 0x52, 0x55, 0x53, 0x57, 0x55, 0x50] && U32(s, 8) == 100
  }

  ghost predicate SlotHolds(s: seq<Byte>, p: Part, offset: nat) {
    && |s| == INVENTORY_STRUCT && Marked(s)
    && U32(s, 12) == offset && U32(s, 16) == Size(p) && U32(s, 20) == p.flash
  }

  ghost predicate RegionHolds(hash: Hash, crc: Crc, u: seq<Byte>, p: Part) {
    && |u| == Size(p) && Marked(u)
    && U32(u, 24) == p.flash && U32(u, 28) == |p.data|
    && u[32..52] == hash(p.data) && U32(u, 52) == crc(p.data)
    && |p.name| < NAME_LENGTH && u[56..56 + |p.name|] == p.name && u[56 + |p.name|] == 0
    && u[HEADER_SIZE..HEADER_SIZE + |p.data|] == p.data
  }

  function Slot(i: nat): nat { 512 + 64 * i }

  /** Partition `p` is in slot `i` and in the region at `offset`. */
  ghost predicate Stored(hash: Hash, crc: Crc, image: seq<Byte>, p: Part, i: nat, offset: nat) {
    && i < SLOTS && IMAGES + offset + Size(p) <= |image|
    && SlotHolds(image[Slot(i)..Slot(i) + INVENTORY_STRUCT], p, offset)
    && RegionHolds(hash, crc, image[IMAGES + offset..IMAGES + offset + Size(p)], p)
  }

  ghost predicate StoredAt(hash: Hash, crc: Crc, image: seq<Byte>, parts: seq<Part>, i: nat)
    requires i < |parts|
  {
    Stored(hash, crc, image, parts[i], i, Offset(parts, i))
  }

  /** The image of a list of partitions. */
  ghost predicate Layout(hash: Hash, crc: Crc, image: seq<Byte>, parts: seq<Part>) {
    && |parts| <= 8 && |image| == ImageLength(parts) && (forall p :: p in parts ==> NameFits(p.name))
    && |image| >= IMAGES && Marked(image)
    && forall i :: 0 <= i < |parts| ==> StoredAt(hash, crc, image, parts, i)
  }

  /** Slot `i` leads to the region at `offset`, whose header tells the length of the data. */
  ghost predicate Indexed(image: seq<Byte>, p: Part, i: nat, offset: nat) {
    && i < SLOTS && IMAGES + offset + Size(p) <= |image|
    && SlotHolds(image[Slot(i)..Slot(i) + INVENTORY_STRUCT], p, offset) && U32(image, IMAGES + offset + 28) == |p.data|
  }

  ghost predicate IndexedAt(image: seq<Byte>, parts: seq<Part>, i: nat)
    requires i < |parts|
  {
    Indexed(image, parts[i], i, Offset(parts, i))
  }

  /** All that the reader looks at to find the partitions. */
  ghost predicate Index(image: seq<Byte>, parts: seq<Part>) {
    |parts| <= SLOTS && |image| >= IMAGES && forall i :: 0 <= i < |parts| ==> IndexedAt(image, parts, i)
  }

  lemma LayoutHasIndex(hash: Hash, crc: Crc, image: seq<Byte>, parts: seq<Part>)
    requires Layout(hash, crc, image, parts)
    ensures Index(image, parts)
  {
    forall i | 0 <= i < |parts| ensures IndexedAt(image, parts, i) {
      assert StoredAt(hash, crc, image, parts, i);
      WordOfSlice(image, IMAGES + Offset(parts, i), IMAGES + Offset(parts, i) + Size(parts[i]), 28);
    }
  }

  // ---------------------------------------------------------------------------------------
  // The regions tile the file
  // ---------------------------------------------------------------------------------------

  lemma {:induction false} OffsetGrows(parts: seq<Part>, i: nat, j: nat)
    requires i <= j <= |parts|
    ensures Offset(parts, i) <= Offset(parts, j)
    ensures i < j ==> Offset(parts, i) + Size(parts[i]) <= Offset(parts, j)
    decreases j
  {
    if i < j {
      OffsetGrows(parts, i, j - 1);
    }
  }

  lemma RoundUpIsAligned(n: nat)
    ensures RoundUp(n) % 512 == 0
  {
  }

  lemma {:induction false} OffsetIsAligned(parts: seq<Part>, i: nat)
    requires i <= |parts|
    ensures Offset(parts, i) % 512 == 0
  {
    if i > 0 {
      OffsetIsAligned(parts, i - 1);
      RoundUpIsAligned(HEADER_SIZE + |parts[i - 1].data|);
      AlignedSum(Offset(parts, i - 1), Size(parts[i - 1]));
    }
  }

  lemma AlignedSum(a: nat, b: nat)
    requires a % 512 == 0 && b % 512 == 0
    ensures (a + b) % 512 == 0
  {
  }

  predicate InRegion(parts: seq<Part>, i: nat, at: nat)
    requires i < |parts|
  {
    IMAGES + Offset(parts, i) <= at < IMAGES + Offset(parts, i + 1)
  }

  lemma {:induction false} RegionOf(parts: seq<Part>, n: nat, at: nat) returns (i: nat)
    requires n <= |parts| && IMAGES <= at < IMAGES + Offset(parts, n)
    ensures i < n && InRegion(parts, i, at)
    decreases n
  {
    if at < IMAGES + Offset(parts, n - 1) {
      i := RegionOf(parts, n - 1, at);
    } else {
      i := n - 1;
    }
  }

  predicate Aligned(parts: seq<Part>, i: nat)
    requires i <= |parts|
  {
    (IMAGES + Offset(parts, i)) % 512 == 0
  }

  /** Every region starts and ends on a multiple of 512. */
  lemma RegionsAligned(parts: seq<Part>)
    ensures forall i :: 0 <= i <= |parts| ==> Aligned(parts, i)
  {
    forall i | 0 <= i <= |parts| ensures Aligned(parts, i) {
      OffsetIsAligned(parts, i);
      AlignedSum(IMAGES, Offset(parts, i));
    }
  }

  /** Every byte of the file from 1024 on lies in exactly one region, and none before. */
  lemma RegionsTile(parts: seq<Part>, at: nat)
    ensures IMAGES <= at < ImageLength(parts) <==> exists i :: 0 <= i < |parts| && InRegion(parts, i, at)
    ensures forall i, j :: 0 <= i < j < |parts| && InRegion(parts, i, at) ==> !InRegion(parts, j, at)
  {
    if IMAGES <= at < ImageLength(parts) {
      var i := RegionOf(parts, |parts|, at);
    }
    forall i | 0 <= i < |parts| && InRegion(parts, i, at) ensures IMAGES <= at < ImageLength(parts) {
      OffsetGrows(parts, i + 1, |parts|);
    }
    forall i, j | 0 <= i < j < |parts| && InRegion(parts, i, at) ensures !InRegion(parts, j, at) {
      OffsetGrows(parts, i + 1, j);
    }
  }

  // ---------------------------------------------------------------------------------------
  // The reader
  // ---------------------------------------------------------------------------------------

  /** A reader that trusts lengths and offsets may leave the file; what it then does is undefined. */
  datatype Outcome<T> = Defined(value: T) | Undefined

  /** Where a partition is: no header when the region is too small for one, else the start of the
      region and the length of its data. */
  datatype Child = NoHeader | Child(at: nat, len: nat)
  datatype Entry = Entry(flash: Word, child: Child)

  /** A size without the header, as 32-bit words subtract. */
  function Behind(size: Word): Word {
    if size >= HEADER_SIZE then size - HEADER_SIZE else size + (0x1_0000_0000 - HEADER_SIZE)
  }

  /** Reads the region of a slot: its data is what the region leaves behind the header, at most
      what the header says. */
  function ParseChild(image: seq<Byte>, slot: seq<Byte>): Outcome<Child>
    requires |slot| == INVENTORY_STRUCT
  {
    var at, size := IMAGES + U32(slot, 12), U32(slot, 16);
    if size < UNITY_STRUCT then Defined(NoHeader)
    else if at + 32 > |image| then Undefined
    else
      var room, len := Behind(size), U32(image, at + 28);
      Defined(Child(at, if room > len then len else room))
  }

  function Prepend(es: seq<Entry>, rest: Outcome<seq<Entry>>): Outcome<seq<Entry>> {
    match rest
    case Undefined => Undefined
    case Defined(more) => Defined(es + more)
  }

  /** The slots from `i` on, until one is not marked. A slot is followed into its region before
      its mark is looked at. */
  function ParseFrom(image: seq<Byte>, i: nat): Outcome<seq<Entry>>
    decreases SLOTS - i
  {
    if i >= SLOTS then Defined([])
    else if Slot(i) + INVENTORY_STRUCT > |image| then Undefined
    else
      var slot := image[Slot(i)..Slot(i) + INVENTORY_STRUCT];
      match ParseChild(image, slot)
      case Undefined => Undefined
      case Defined(child) =>
        if !Marked(slot) then Defined([])
        else Prepend([Entry(U32(slot, 20), child)], ParseFrom(image, i + 1))
  }

  function CString(s: seq<Byte>): seq<Byte> {
    if s == [] || s[0] == 0 then [] else [s[0]] + CString(s[1..])
  }

  function PartOf(image: seq<Byte>, e: Entry): Outcome<Part> {
    match e.child
    case NoHeader => Undefined
    case Child(at, len) =>
      if at + HEADER_SIZE + len > |image| then Undefined
      else Defined(Part(e.flash, CString(image[at + 56..at + 56 + NAME_LENGTH]), image[at + HEADER_SIZE..at + HEADER_SIZE + len]))
  }

  function VerifyEntry(hash: Hash, crc: Crc, image: seq<Byte>, e: Entry): Outcome<bool> {
    match PartOf(image, e)
    case Undefined => Undefined
    case Defined(p) =>
      var at := e.child.at;
      Defined(crc(p.data) == U32(image, at + 52) && hash(p.data) == image[at + 32..at + 52])
  }

  /** All partitions are checked, also behind one that failed. */
  function VerifyAll(hash: Hash, crc: Crc, image: seq<Byte>, es: seq<Entry>): Outcome<bool> {
    if es == [] then Defined(true)
    else
      var front, last := VerifyAll(hash, crc, image, es[..|es| - 1]), VerifyEntry(hash, crc, image, es[|es| - 1]);
      if front.Undefined? || last.Undefined? then Undefined else Defined(front.value && last.value)
  }

  // ---------------------------------------------------------------------------------------
  // Round trip
  // ---------------------------------------------------------------------------------------

  lemma {:induction false} CStringRoundTrip(name: seq<Byte>, rest: seq<Byte>)
    requires 0 !in name
    ensures CString(name + [0] + rest) == name
  {
    var s := name + [0] + rest;
    if name != [] {
      assert s[1..] == name[1..] + [0] + rest;
      CStringRoundTrip(name[1..], rest);
    }
  }

  lemma NameRoundTrip(s: seq<Byte>, name: seq<Byte>)
    requires NameFits(name) && |s| == NAME_LENGTH && s[..|name|] == name && s[|name|] == 0
    ensures CString(s) == name
  {
    assert s == name + [0] + s[|name| + 1..];
    CStringRoundTrip(name, s[|name| + 1..]);
  }

  function EntryOf(parts: seq<Part>, i: nat): Entry
    requires i < |parts|
  {
    Entry(parts[i].flash, Child(IMAGES + Offset(parts, i), |parts[i].data|))
  }

  function Entries(parts: seq<Part>, i: nat): seq<Entry>
    requires i <= |parts|
    decreases |parts| - i
  {
    if i == |parts| then [] else [EntryOf(parts, i)] + Entries(parts, i + 1)
  }

  /** A slot that was written leads to its region and its data. */
  lemma SlotRoundTrip(image: seq<Byte>, p: Part, i: nat, offset: nat)
    requires Indexed(image, p, i, offset)
    ensures var slot := image[Slot(i)..Slot(i) + INVENTORY_STRUCT];
            ParseChild(image, slot) == Defined(Child(IMAGES + offset, |p.data|)) && Marked(slot) && U32(slot, 20) == p.flash
  {
  }

  lemma ParseOne(image: seq<Byte>, i: nat, e: Entry)
    requires i < SLOTS && Slot(i) + INVENTORY_STRUCT <= |image|
    requires var slot := image[Slot(i)..Slot(i) + INVENTORY_STRUCT];
             ParseChild(image, slot) == Defined(e.child) && Marked(slot) && U32(slot, 20) == e.flash
    ensures ParseFrom(image, i) == Prepend([e], ParseFrom(image, i + 1))
  {
  }

  lemma PrependTwice(a: seq<Entry>, b: seq<Entry>, rest: Outcome<seq<Entry>>)
    ensures Prepend(a, Prepend(b, rest)) == Prepend(a + b, rest)
  {
    if rest.Defined? {
      assert a + (b + rest.value) == (a + b) + rest.value;
    }
  }

  lemma PrependNothing(rest: Outcome<seq<Entry>>)
    ensures Prepend([], rest) == rest
  {
    if rest.Defined? {
      assert [] + rest.value == rest.value;
    }
  }

  lemma ParseFindsOne(image: seq<Byte>, parts: seq<Part>, i: nat)
    requires Index(image, parts) && i < |parts|
    ensures ParseFrom(image, i) == Prepend([EntryOf(parts, i)], ParseFrom(image, i + 1))
  {
    assert IndexedAt(image, parts, i);
    SlotRoundTrip(image, parts[i], i, Offset(parts, i));
    ParseOne(image, i, EntryOf(parts, i));
  }

  /** The reader finds every written partition, and goes on behind the last. */
  lemma {:induction false} ParseFinds(image: seq<Byte>, parts: seq<Part>, i: nat)
    requires Index(image, parts) && i <= |parts|
    ensures ParseFrom(image, i) == Prepend(Entries(parts, i), ParseFrom(image, |parts|))
    decreases |parts| - i
  {
    var rest := ParseFrom(image, |parts|);
    if i < |parts| {
      ParseFinds(image, parts, i + 1);
      ParseFindsOne(image, parts, i);
      PrependTwice([EntryOf(parts, i)], Entries(parts, i + 1), rest);
    } else {
      PrependNothing(rest);
    }
  }

  /** A region gives back its partition and passes the check. */
  lemma RegionRoundTrip(hash: Hash, crc: Crc, image: seq<Byte>, a: nat, b: nat, p: Part)
    requires a <= b <= |image| && NameFits(p.name) && RegionHolds(hash, crc, image[a..b], p)
    ensures var e := Entry(p.flash, Child(a, |p.data|));
            PartOf(image, e) == Defined(p) && VerifyEntry(hash, crc, image, e) == Defined(true)
  {
    var u, n := image[a..b], |p.name|;
    SliceOfSlice(image, a, b, 56, 88);
    SliceOfSlice(u, 56, 88, 0, n);
    NameRoundTrip(u[56..88], p.name);
    SliceOfSlice(image, a, b, HEADER_SIZE, HEADER_SIZE + |p.data|);
    SliceOfSlice(image, a, b, 32, 52);
    WordOfSlice(image, a, b, 52);
  }

  /** The first unused slot neither looks like an entry nor leads the reader out of the file. */
  predicate SlotIsQuiet(image: seq<Byte>, i: nat)
    requires Slot(i) + INVENTORY_STRUCT <= |image|
  {
    var slot := image[Slot(i)..Slot(i) + INVENTORY_STRUCT];
    !Marked(slot) && (U32(slot, 16) < UNITY_STRUCT || IMAGES + U32(slot, 12) + 32 <= |image|)
  }

  /** Parsing a created image gives exactly its partitions if and only if all slots are used or the
      first unused one is quiet. */
  lemma ParseRecoversExactly(image: seq<Byte>, parts: seq<Part>)
    requires Index(image, parts)
    ensures ParseFrom(image, 0) == Defined(Entries(parts, 0)) <==> |parts| == SLOTS || SlotIsQuiet(image, |parts|)
  {
    ParseFinds(image, parts, 0);
    var rest := ParseFrom(image, |parts|);
    BehindLast(image, |parts|);
    assert rest.Defined? && rest.value != [] ==> |Entries(parts, 0) + rest.value| > |Entries(parts, 0)|;
    assert Entries(parts, 0) + [] == Entries(parts, 0);
  }

  lemma BehindLast(image: seq<Byte>, i: nat)
    requires i <= SLOTS && |image| >= IMAGES
    ensures ParseFrom(image, i) == Defined([]) <==> i == SLOTS || SlotIsQuiet(image, i)
  {
  }

  /** A slot nobody wrote that still carries an old entry: the image is a right image of no
      partitions, but the reader does not take it for one. */
  lemma StaleSlotIsRead(hash: Hash, crc: Crc) returns (image: seq<Byte>)
    ensures Layout(hash, crc, image, []) && ParseFrom(image, 0) != Defined([])
  {
    var mark := MAGIC + WordBytes(VERSION);
    image := Overwrite(seq(1024, _ => 0), 0, mark);
    image := Overwrite(image, 512, mark);
    assert image[..12] == mark && image[512..524] == mark;
    WordRoundTrip(image, 8, VERSION) by { assert image[8..12] == mark[8..12] == WordBytes(VERSION); }
    var slot := image[Slot(0)..Slot(0) + INVENTORY_STRUCT];
    assert slot[..12] == mark;
    WordRoundTrip(slot, 8, VERSION) by { assert slot[8..12] == mark[8..12] == WordBytes(VERSION); }
    assert image[..8] == mark[..8] && slot[..8] == mark[..8];
    ParseRecoversExactly(image, []);
  }

  lemma {:induction false} EntriesAt(parts: seq<Part>, i: nat, k: nat)
    requires i <= |parts| && k < |parts| - i
    ensures |Entries(parts, i)| == |parts| - i && Entries(parts, i)[k] == EntryOf(parts, i + k)
    decreases |parts| - i
  {
    if i + 1 < |parts| {
      EntriesAt(parts, i + 1, if k > 0 then k - 1 else 0);
    }
  }

  lemma EntriesAll(parts: seq<Part>)
    ensures |Entries(parts, 0)| == |parts|
    ensures forall i :: 0 <= i < |parts| ==> Entries(parts, 0)[i] == EntryOf(parts, i)
  {
    forall i | 0 <= i < |parts| ensures |Entries(parts, 0)| == |parts| && Entries(parts, 0)[i] == EntryOf(parts, i) {
      EntriesAt(parts, 0, i);
    }
  }

  lemma {:induction false} AllVerify(hash: Hash, crc: Crc, image: seq<Byte>, es: seq<Entry>)
    requires forall e :: e in es ==> VerifyEntry(hash, crc, image, e) == Defined(true)
    ensures VerifyAll(hash, crc, image, es) == Defined(true)
  {
    if es != [] {
      AllVerify(hash, crc, image, es[..|es| - 1]);
    }
  }

  lemma PartRecovered(hash: Hash, crc: Crc, image: seq<Byte>, parts: seq<Part>, i: nat)
    requires Layout(hash, crc, image, parts) && i < |parts|
    ensures PartOf(image, EntryOf(parts, i)) == Defined(parts[i])
    ensures VerifyEntry(hash, crc, image, EntryOf(parts, i)) == Defined(true)
  {
    assert StoredAt(hash, crc, image, parts, i) && parts[i] in parts;
    var a := IMAGES + Offset(parts, i);
    RegionRoundTrip(hash, crc, image, a, a + Size(parts[i]), parts[i]);
  }

  /** The entries of a created image give back every partition, byte for byte despite the padding,
      and the image verifies. */
  lemma ImageRoundTrip(hash: Hash, crc: Crc, image: seq<Byte>, parts: seq<Part>)
    requires Layout(hash, crc, image, parts)
    ensures |Entries(parts, 0)| == |parts|
    ensures forall i :: 0 <= i < |parts| ==> PartOf(image, Entries(parts, 0)[i]) == Defined(parts[i])
    ensures VerifyAll(hash, crc, image, Entries(parts, 0)) == Defined(true)
  {
    EntriesAll(parts);
    forall i | 0 <= i < |parts|
      ensures PartOf(image, EntryOf(parts, i)) == Defined(parts[i])
      ensures VerifyEntry(hash, crc, image, EntryOf(parts, i)) == Defined(true)
    {
      PartRecovered(hash, crc, image, parts, i);
    }
    AllVerify(hash, crc, image, Entries(parts, 0));
  }

  // ---------------------------------------------------------------------------------------
  // What the reader takes for data, and what the check says of any image
  // ---------------------------------------------------------------------------------------

  /** The data of a child are as many bytes as its header says, but no more than the slot leaves
      behind the header; they end inside the region if and only if the slot leaves room for a whole
      header, since for smaller sizes the subtraction wraps. */
  lemma DataInsideExactly(image: seq<Byte>, slot: seq<Byte>, at: nat, len: nat)
    requires |slot| == INVENTORY_STRUCT && ParseChild(image, slot) == Defined(Child(at, len))
    ensures at == 1024 + U32(slot, 12) && at + 32 <= |image| && len <= U32(image, at + 28)
    ensures 512 + len <= U32(slot, 16) <==> U32(slot, 16) >= 512
    ensures len < U32(image, at + 28) ==> 512 + len == U32(slot, 16) || 512 + len == U32(slot, 16) + 0x1_0000_0000
  {
  }

  /** Header and data of the entry lie in the file. */
  predicate Inside(image: seq<Byte>, e: Entry) {
    e.child.Child? && e.child.at + 512 + e.child.len <= |image|
  }

  /** The twenty bytes and the word stored are hash and CRC of the bytes behind the header. */
  predicate Matches(hash: Hash, crc: Crc, image: seq<Byte>, at: nat, data: seq<Byte>) {
    at + 512 <= |image| && image[at + 32..at + 52] == hash(data) && U32(image, at + 52) == crc(data)
  }

  predicate Sound(hash: Hash, crc: Crc, image: seq<Byte>, e: Entry) {
    Inside(image, e) && Matches(hash, crc, image, e.child.at, image[e.child.at + 512..e.child.at + 512 + e.child.len])
  }

  lemma EntryExactly(hash: Hash, crc: Crc, image: seq<Byte>, e: Entry)
    ensures VerifyEntry(hash, crc, image, e).Defined? <==> Inside(image, e)
    ensures VerifyEntry(hash, crc, image, e) == Defined(true) <==> Sound(hash, crc, image, e)
  {
  }

  /** Of any image and any entries: the check comes to an end if and only if all of them lie in the
      file, and then says yes if and only if hash and CRC of every one match what is stored. */
  lemma {:induction false} VerifyExactly(hash: Hash, crc: Crc, image: seq<Byte>, es: seq<Entry>)
    ensures VerifyAll(hash, crc, image, es).Defined? <==> forall e :: e in es ==> Inside(image, e)
    ensures VerifyAll(hash, crc, image, es) == Defined(true) <==> forall e :: e in es ==> Sound(hash, crc, image, e)
  {
    if es != [] {
      var front, last := es[..|es| - 1], es[|es| - 1];
      VerifyExactly(hash, crc, image, front);
      assert es == front + [last];
      EntryExactly(hash, crc, image, last);
    }
  }

  /** The image with the data of partition `i` replaced. */
  function Altered(image: seq<Byte>, parts: seq<Part>, i: nat, other: seq<Byte>): seq<Byte>
    requires i < |parts| && IMAGES + Offset(parts, i) + HEADER_SIZE <= |image|
  {
    Overwrite(image, IMAGES + Offset(parts, i) + HEADER_SIZE, other)
  }

  lemma RegionMatches(hash: Hash, crc: Crc, image: seq<Byte>, a: nat, b: nat, p: Part)
    requires a <= b <= |image| && RegionHolds(hash, crc, image[a..b], p)
    ensures Matches(hash, crc, image, a, p.data) && a + 512 + |p.data| <= b && image[a + 512..a + 512 + |p.data|] == p.data
  {
    SliceOfSlice(image, a, b, HEADER_SIZE, HEADER_SIZE + |p.data|);
    SliceOfSlice(image, a, b, 32, 52);
    WordOfSlice(image, a, b, 52);
  }

  lemma StoredInside(hash: Hash, crc: Crc, image: seq<Byte>, parts: seq<Part>, i: nat)
    requires Layout(hash, crc, image, parts) && i < |parts|
    ensures var a, n := IMAGES + Offset(parts, i), |parts[i].data|;
            && a + 512 + n <= a + Size(parts[i]) <= |image|
            && Matches(hash, crc, image, a, parts[i].data) && image[a + 512..a + 512 + n] == parts[i].data
  {
    assert StoredAt(hash, crc, image, parts, i);
    var a := IMAGES + Offset(parts, i);
    RegionMatches(hash, crc, image, a, a + Size(parts[i]), parts[i]);
  }

  /** Bytes written elsewhere leave an entry sound. */
  lemma SoundKept(hash: Hash, crc: Crc, image: seq<Byte>, at: nat, other: seq<Byte>, flash: Word, a: nat, n: nat)
    requires at + |other| <= |image| && (at + |other| <= a || a + 512 + n <= at)
    requires Sound(hash, crc, image, Entry(flash, Child(a, n)))
    ensures Sound(hash, crc, Overwrite(image, at, other), Entry(flash, Child(a, n)))
  {
    OverwriteKeeps(image, at, other, a + 512, a + 512 + n);
    OverwriteKeeps(image, at, other, a + 32, a + 52);
    OverwriteKeeps(image, at, other, a + 52, a + 56);
  }

  /** Two regions do not overlap. */
  lemma RegionsApart(parts: seq<Part>, i: nat, j: nat)
    requires i < |parts| && j < |parts| && i != j
    ensures Offset(parts, i) + Size(parts[i]) <= Offset(parts, j) || Offset(parts, j) + Size(parts[j]) <= Offset(parts, i)
  {
    if i < j { OffsetGrows(parts, i, j); } else { OffsetGrows(parts, j, i); }
  }

  lemma AlteredElsewhere(hash: Hash, crc: Crc, image: seq<Byte>, parts: seq<Part>, i: nat, other: seq<Byte>, j: nat)
    requires Layout(hash, crc, image, parts) && i < |parts| && j < |parts| && i != j && |other| == |parts[i].data|
    requires IMAGES + Offset(parts, i) + HEADER_SIZE + |other| <= |image|
    ensures Sound(hash, crc, Altered(image, parts, i, other), EntryOf(parts, j))
  {
    StoredInside(hash, crc, image, parts, j);
    RegionsApart(parts, i, j);
    SoundKept(hash, crc, image, IMAGES + Offset(parts, i) + HEADER_SIZE, other,
              parts[j].flash, IMAGES + Offset(parts, j), |parts[j].data|);
  }

  lemma SoundWith(hash: Hash, crc: Crc, image: seq<Byte>, flash: Word, a: nat, data: seq<Byte>, other: seq<Byte>)
    requires |other| == |data| && a + 512 + |data| <= |image| && Matches(hash, crc, image, a, data)
    ensures var changed, e := Overwrite(image, a + 512, other), Entry(flash, Child(a, |data|));
            Inside(changed, e) && (Sound(hash, crc, changed, e) <==> hash(other) == hash(data) && crc(other) == crc(data))
  {
    OverwriteHolds(image, a + 512, other);
    OverwriteKeeps(image, a + 512, other, a + 32, a + 52);
    OverwriteKeeps(image, a + 512, other, a + 52, a + 56);
  }

  lemma AlteredItself(hash: Hash, crc: Crc, image: seq<Byte>, parts: seq<Part>, i: nat, other: seq<Byte>)
    requires Layout(hash, crc, image, parts) && i < |parts| && |other| == |parts[i].data|
    requires IMAGES + Offset(parts, i) + HEADER_SIZE + |other| <= |image|
    ensures Inside(Altered(image, parts, i, other), EntryOf(parts, i))
    ensures Sound(hash, crc, Altered(image, parts, i, other), EntryOf(parts, i))
       <==> hash(other) == hash(parts[i].data) && crc(other) == crc(parts[i].data)
  {
    StoredInside(hash, crc, image, parts, i);
    SoundWith(hash, crc, image, parts[i].flash, IMAGES + Offset(parts, i), parts[i].data, other);
  }

  /** An image whose partition `i` was altered passes the check if and only if hash and CRC of the
      new bytes are those of the old. */
  lemma AlteredPassesExactly(hash: Hash, crc: Crc, image: seq<Byte>, parts: seq<Part>, i: nat, other: seq<Byte>)
    requires Layout(hash, crc, image, parts) && i < |parts| && |other| == |parts[i].data|
    ensures IMAGES + Offset(parts, i) + HEADER_SIZE + |other| <= |image|
    ensures VerifyAll(hash, crc, Altered(image, parts, i, other), Entries(parts, 0)) ==
            Defined(hash(other) == hash(parts[i].data) && crc(other) == crc(parts[i].data))
  {
    StoredInside(hash, crc, image, parts, i);
    var changed, es := Altered(image, parts, i, other), Entries(parts, 0);
    EntriesAll(parts);
    VerifyExactly(hash, crc, changed, es);
    AlteredItself(hash, crc, image, parts, i, other);
    forall j | 0 <= j < |parts| && j != i ensures Sound(hash, crc, changed, es[j]) {
      AlteredElsewhere(hash, crc, image, parts, i, other, j);
    }
    assert es[i] in es;
  }

  lemma IndexKept(image: seq<Byte>, at: nat, other: seq<Byte>, p: Part, j: nat, offset: nat)
    requires Indexed(image, p, j, offset) && IMAGES <= at && at + |other| <= |image|
    requires at + |other| <= IMAGES + offset || IMAGES + offset + HEADER_SIZE <= at
    ensures Indexed(Overwrite(image, at, other), p, j, offset)
  {
    OverwriteKeeps(image, at, other, IMAGES + offset + 28, IMAGES + offset + 32);
    OverwriteKeeps(image, at, other, Slot(j), Slot(j) + INVENTORY_STRUCT);
  }

  lemma QuietKept(image: seq<Byte>, at: nat, other: seq<Byte>, i: nat)
    requires i < SLOTS && IMAGES <= at && at + |other| <= |image|
    ensures SlotIsQuiet(Overwrite(image, at, other), i) == SlotIsQuiet(image, i)
  {
    OverwriteKeeps(image, at, other, Slot(i), Slot(i) + INVENTORY_STRUCT);
  }

  lemma AlteredIndex(image: seq<Byte>, parts: seq<Part>, i: nat, other: seq<Byte>)
    requires Index(image, parts) && i < |parts| && |other| == |parts[i].data|
    requires IMAGES + Offset(parts, i) + HEADER_SIZE + |other| <= |image|
    ensures Index(Altered(image, parts, i, other), parts)
  {
    forall j | 0 <= j < |parts| ensures IndexedAt(Altered(image, parts, i, other), parts, j) {
      assert IndexedAt(image, parts, j);
      if i != j { RegionsApart(parts, i, j); }
      IndexKept(image, IMAGES + Offset(parts, i) + HEADER_SIZE, other, parts[j], j, Offset(parts, j));
    }
  }

  lemma IndexIsFound(image: seq<Byte>, parts: seq<Part>, i: nat, other: seq<Byte>)
    requires Index(image, parts) && i < |parts| && |other| == |parts[i].data|
    requires IMAGES + Offset(parts, i) + HEADER_SIZE + |other| <= |image|
    requires |parts| == SLOTS || SlotIsQuiet(image, |parts|)
    ensures ParseFrom(Altered(image, parts, i, other), 0) == Defined(Entries(parts, 0))
  {
    AlteredIndex(image, parts, i, other);
    if |parts| < SLOTS { QuietKept(image, IMAGES + Offset(parts, i) + HEADER_SIZE, other, |parts|); }
    ParseRecoversExactly(Altered(image, parts, i, other), parts);
  }

  /** The reader finds the partitions of an altered image if it found those of the first. */
  lemma AlteredIsFound(hash: Hash, crc: Crc, image: seq<Byte>, parts: seq<Part>, i: nat, other: seq<Byte>)
    requires Layout(hash, crc, image, parts) && i < |parts| && |other| == |parts[i].data|
    requires IMAGES + Offset(parts, i) + HEADER_SIZE + |other| <= |image|
    requires |parts| == SLOTS || SlotIsQuiet(image, |parts|)
    ensures ParseFrom(Altered(image, parts, i, other), 0) == Defined(Entries(parts, 0))
  {
    LayoutHasIndex(hash, crc, image, parts);
    IndexIsFound(image, parts, i, other);
  }
}
