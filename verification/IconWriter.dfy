/**
 The icon file writer.  The file is a directory of fixed-size entries followed by the PNG images;
 a first pass writes the entries with precomputed offsets, a second pass appends the images.
 Fields are 16-bit and 32-bit little-endian and arithmetic on them wraps around.
 */
module IconWriter {

  newtype byte = x: int | 0 <= x < 256

  const WORD_RANGE := 0x1_0000
  const DWORD_RANGE := 0x1_0000_0000
  const HEADER_BYTES := 6
  const ENTRY_BYTES := 16

  datatype IconImage = IconImage(size: nat, png: seq<byte>)

  datatype Result<+T> = Success(value: T) | Failure

  // ----- fields -----

  function ByteOf(value: nat): byte {
    (value % 256) as byte
  }

  function Word(value: nat): (r: seq<byte>)
    ensures |r| == 2
  {
    [ByteOf(value), ByteOf(value / 256)]
  }

  function Dword(value: nat): (r: seq<byte>)
    ensures |r| == 4
  {
    Word(value % WORD_RANGE) + Word(value / WORD_RANGE)
  }

  function ReadWord(bytes: seq<byte>, at: nat): nat
    requires at + 2 <= |bytes|
  {
    bytes[at] as int + 256 * (bytes[at + 1] as int)
  }

  function ReadDword(bytes: seq<byte>, at: nat): nat
    requires at + 4 <= |bytes|
  {
    ReadWord(bytes, at) + WORD_RANGE * ReadWord(bytes, at + 2)
  }

  lemma {:induction false} WordReadsBack(bytes: seq<byte>, at: nat, value: nat)
    requires at + 2 <= |bytes| && bytes[at..at + 2] == Word(value)
    ensures ReadWord(bytes, at) == value % WORD_RANGE
  {
    assert bytes[at] == bytes[at..at + 2][0] && bytes[at + 1] == bytes[at..at + 2][1];
  }

  lemma {:induction false} LowAndHigh(value: nat)
    ensures value % WORD_RANGE % WORD_RANGE + WORD_RANGE * (value / WORD_RANGE % WORD_RANGE) == value % DWORD_RANGE
  {
  }

  lemma {:induction false} DwordReadsBack(bytes: seq<byte>, at: nat, value: nat)
    requires at + 4 <= |bytes| && bytes[at..at + 4] == Dword(value)
    ensures ReadDword(bytes, at) == value % DWORD_RANGE
  {
    hide Word, ReadWord;
    assert bytes[at..at + 2] == bytes[at..at + 4][..2] == Word(value % WORD_RANGE);
    assert bytes[at + 2..at + 4] == bytes[at..at + 4][2..] == Word(value / WORD_RANGE);
    LowAndHigh(value);
    WordReadsBack(bytes, at, value % WORD_RANGE);
    WordReadsBack(bytes, at + 2, value / WORD_RANGE);
  }

  // ----- the file -----

  /** 256 is stored as zero. */
  function SizeByte(size: nat): byte {
    if size == 256 then 0 else ByteOf(size)
  }

  function Entry(image: IconImage, offset: nat): (r: seq<byte>)
    ensures |r| == ENTRY_BYTES
  {
    [SizeByte(image.size), SizeByte(image.size), 0, 0] + Word(1) + Word(32) + Dword(|image.png|) + Dword(offset)
  }

  /** The directory entries, when the first image's offset is `offset`. */
  function Entries(images: seq<IconImage>, offset: nat): (r: seq<byte>)
    ensures |r| == ENTRY_BYTES * |images|
  {
    if images == [] then []
    else Entry(images[0], offset) + Entries(images[1..], (offset + |images[0].png|) % DWORD_RANGE)
  }

  function Payload(images: seq<IconImage>): seq<byte> {
    if images == [] then [] else images[0].png + Payload(images[1..])
  }

  function FirstOffset(count: nat): nat {
    (HEADER_BYTES + ENTRY_BYTES * (count % DWORD_RANGE)) % DWORD_RANGE
  }

  function Icon(images: seq<IconImage>): seq<byte> {
    Word(0) + Word(1) + Word(|images| % WORD_RANGE) + Entries(images, FirstOffset(|images|)) + Payload(images)
  }

  /** An image whose byte count does not fit a directory entry. */
  predicate TooLarge(image: IconImage) {
    |image.png| >= DWORD_RANGE
  }

  // ----- the writer -----

  class ByteVector {
    var bytes: seq<byte>

    constructor ()
      ensures bytes == []
    {
      bytes := [];
    }

    method AppendByte(value: byte)
      modifies this
      ensures bytes == old(bytes) + [value]
    {
      bytes := bytes + [value];
    }

    method AppendWord(value: nat)
      modifies this
      ensures bytes == old(bytes) + Word(value)
    {
      AppendByte(ByteOf(value));
      AppendByte(ByteOf(value / 256));
    }

    method AppendDword(value: nat)
      modifies this
      ensures bytes == old(bytes) + Dword(value)
    {
      AppendWord(value % WORD_RANGE);
      AppendWord(value / WORD_RANGE);
    }

    /** One directory entry. */
    method AppendEntry(image: IconImage, imageOffset: nat)
      modifies this
      ensures bytes == old(bytes) + Entry(image, imageOffset)
    {
      hide Word, Dword;
      AppendByte(SizeByte(image.size));
      AppendByte(SizeByte(image.size));
      AppendByte(0);
      AppendByte(0);
      AppendWord(1);
      AppendWord(32);
      AppendDword(|image.png|);
      AppendDword(imageOffset);
    }

    method AppendPng(image: IconImage)
      modifies this
      ensures bytes == old(bytes) + image.png
    {
      for k := 0 to |image.png|
        invariant bytes == old(bytes) + image.png[..k]
      {
        AppendByte(image.png[k]);
        assert image.png[..k + 1] == image.png[..k] + [image.png[k]];
      }
    }
  }

  /** Fails exactly if some image is too large; otherwise the result is the whole file. */
  method CreateIcon(images: seq<IconImage>) returns (result: Result<seq<byte>>)
    ensures result == if exists k :: 0 <= k < |images| && TooLarge(images[k]) then Failure else Success(Icon(images))
  {
    hide Word;
    var out := new ByteVector();
    out.AppendWord(0);
    out.AppendWord(1);
    out.AppendWord(|images| % WORD_RANGE);
    assert out.bytes == Word(0) + Word(1) + Word(|images| % WORD_RANGE);
    var complete := WriteDirectory(out, images);
    if !complete {
      return Failure;
    }
    WriteImages(out, images);
    return Success(out.bytes);
  }

  /** First pass: one entry per image, with the offset the image will have. */
  method WriteDirectory(out: ByteVector, images: seq<IconImage>) returns (complete: bool)
    modifies out
    ensures complete <==> forall k :: 0 <= k < |images| ==> !TooLarge(images[k])
    ensures complete ==> out.bytes == old(out.bytes) + Entries(images, FirstOffset(|images|))
  {
    hide Entry, FirstOffset;
    var imageOffset: nat := FirstOffset(|images|);
    assert images[0..] == images;
    for k := 0 to |images|
      invariant forall i :: 0 <= i < k ==> !TooLarge(images[i])
      invariant out.bytes + Entries(images[k..], imageOffset) == old(out.bytes) + Entries(images, FirstOffset(|images|))
    {
      if TooLarge(images[k]) {
        return false;
      }
      assert images[k..][1..] == images[k + 1..];
      out.AppendEntry(images[k], imageOffset);
      imageOffset := (imageOffset + |images[k].png|) % DWORD_RANGE;
    }
    assert images[|images|..] == [];
    return true;
  }

  /** Second pass: the images themselves. */
  method WriteImages(out: ByteVector, images: seq<IconImage>)
    modifies out
    ensures out.bytes == old(out.bytes) + Payload(images)
  {
    assert images[0..] == images;
    for k := 0 to |images|
      invariant out.bytes + Payload(images[k..]) == old(out.bytes) + Payload(images)
    {
      assert images[k..][1..] == images[k + 1..];
      out.AppendPng(images[k]);
    }
    assert images[|images|..] == [];
  }

  // ----- a reader -----

  /** A reader of one entry of a square true-colour image: its size, and the bytes at its offset. */
  function ReadEntry(bytes: seq<byte>, at: nat): Result<IconImage>
    requires at + ENTRY_BYTES <= |bytes|
  {
    var length, offset := ReadDword(bytes, at + 8), ReadDword(bytes, at + 12);
    if bytes[at + 1] != bytes[at] || bytes[at + 2] != 0 || bytes[at + 3] != 0 || ReadWord(bytes, at + 4) != 1 || ReadWord(bytes, at + 6) != 32
       || offset + length > |bytes| then Failure
    else Success(IconImage(if bytes[at] == 0 then 256 else bytes[at] as int, bytes[offset..offset + length]))
  }

  function ReadEntries(bytes: seq<byte>, at: nat, count: nat): Result<seq<IconImage>>
    decreases count
  {
    if count == 0 then Success([])
    else if at + ENTRY_BYTES > |bytes| then Failure
    else
      var first, rest := ReadEntry(bytes, at), ReadEntries(bytes, at + ENTRY_BYTES, count - 1);
      if first.Failure? || rest.Failure? then Failure else Success([first.value] + rest.value)
  }

  function Decode(bytes: seq<byte>): Result<seq<IconImage>> {
    if |bytes| < HEADER_BYTES || ReadWord(bytes, 0) != 0 || ReadWord(bytes, 2) != 1 then Failure
    else ReadEntries(bytes, HEADER_BYTES, ReadWord(bytes, 4))
  }

  // ----- round trip -----

  /** The format's limits: a count and sizes that the fields can hold, images that fit an entry, and starts that fit 32 bits. */
  predicate Representable(images: seq<IconImage>) {
    && |images| < WORD_RANGE
    && (forall k :: 0 <= k < |images| ==>
         && 1 <= images[k].size <= 256 && !TooLarge(images[k])
         && Start(images, k) < DWORD_RANGE)
  }

  /** Where image `k` starts: behind the directory and the images before it. */
  function Start(images: seq<IconImage>, k: nat): nat
    requires k <= |images|
  {
    HEADER_BYTES + ENTRY_BYTES * |images| + |Payload(images[..k])|
  }

  lemma {:induction false} PayloadAppend(a: seq<IconImage>, b: seq<IconImage>)
    ensures Payload(a + b) == Payload(a) + Payload(b)
  {
    hide Payload;
    if a == [] {
      PayloadNone();
      assert a + b == b;
      return;
    }
    assert a == [a[0]] + a[1..] && a + b == [a[0]] + (a[1..] + b);
    PayloadCons(a[0], a[1..]);
    PayloadCons(a[0], a[1..] + b);
    PayloadAppend(a[1..], b);
  }

  lemma {:induction false} PayloadNone()
    ensures Payload([]) == []
  {
  }

  lemma {:induction false} PayloadCons(image: IconImage, rest: seq<IconImage>)
    ensures Payload([image] + rest) == image.png + Payload(rest)
  {
    assert ([image] + rest)[1..] == rest;
  }

  lemma {:induction false} PayloadSplit(images: seq<IconImage>, k: nat)
    requires k < |images|
    ensures Payload(images) == Payload(images[..k]) + images[k].png + Payload(images[k + 1..])
    ensures Payload(images[..k + 1]) == Payload(images[..k]) + images[k].png
  {
    PayloadOne(images[k]);
    hide Payload;
    assert images == images[..k] + [images[k]] + images[k + 1..];
    assert images[..k + 1] == images[..k] + [images[k]];
    PayloadAppend(images[..k] + [images[k]], images[k + 1..]);
    PayloadAppend(images[..k], [images[k]]);
  }

  lemma {:induction false} PayloadOne(image: IconImage)
    ensures Payload([image]) == image.png
  {
    assert Payload([image][1..]) == [];
  }

  /** The offset that the first pass has reached at entry `k` is where the second pass puts image `k`, as far as 32 bits can tell. */
  lemma {:induction false} EntriesAt(images: seq<IconImage>, k: nat)
    requires k < |images|
    ensures |Entries(images, FirstOffset(|images|))| == ENTRY_BYTES * |images|
    ensures Entries(images, FirstOffset(|images|))[ENTRY_BYTES * k..ENTRY_BYTES * (k + 1)]
         == Entry(images[k], Start(images, k) % DWORD_RANGE)
  {
    StartOfFirst(images);
    hide FirstOffset, Start, Entry;
    EntriesFrom(images, 0, k);
    assert images[0..] == images;
  }

  lemma {:induction false} StartOfFirst(images: seq<IconImage>)
    ensures FirstOffset(|images|) == Start(images, 0) % DWORD_RANGE
  {
    assert images[..0] == [];
    assert Start(images, 0) == HEADER_BYTES + ENTRY_BYTES * |images|;
    hide Start;
    var q, r := |images| / DWORD_RANGE, |images| % DWORD_RANGE;
    assert HEADER_BYTES + ENTRY_BYTES * |images| == (HEADER_BYTES + ENTRY_BYTES * r) + DWORD_RANGE * (ENTRY_BYTES * q);
    WholeTurns(HEADER_BYTES + ENTRY_BYTES * r, ENTRY_BYTES * q);
  }

  lemma {:induction false} WholeTurns(x: nat, q: nat)
    ensures (x + DWORD_RANGE * q) % DWORD_RANGE == x % DWORD_RANGE
  {
  }

  lemma {:induction false} EntriesFrom(images: seq<IconImage>, from: nat, k: nat)
    requires from <= k < |images|
    ensures var entries := Entries(images[from..], Start(images, from) % DWORD_RANGE);
      entries[ENTRY_BYTES * (k - from)..ENTRY_BYTES * (k - from + 1)] == Entry(images[k], Start(images, k) % DWORD_RANGE)
    decreases k - from
  {
    hide Entry, Start;
    var offset := Start(images, from) % DWORD_RANGE;
    var first := Entry(images[from], offset);
    var next := (offset + |images[from].png|) % DWORD_RANGE;
    assert images[from..][1..] == images[from + 1..];
    var rest := Entries(images[from + 1..], next);
    assert Entries(images[from..], offset) == first + rest;
    StartsAdvance(images, from);
    if from == k {
      assert (first + rest)[0..ENTRY_BYTES] == first;
    } else {
      EntriesFrom(images, from + 1, k);
      SliceAfter(first, rest, ENTRY_BYTES * (k - from - 1), ENTRY_BYTES * (k - from));
    }
  }

  lemma {:induction false} SliceAfter(first: seq<byte>, rest: seq<byte>, lo: nat, hi: nat)
    requires lo <= hi <= |rest|
    ensures (first + rest)[|first| + lo..|first| + hi] == rest[lo..hi]
  {
  }

  lemma {:induction false} StartsAdvance(images: seq<IconImage>, k: nat)
    requires k < |images|
    ensures Start(images, k + 1) == Start(images, k) + |images[k].png|
    ensures Start(images, k + 1) % DWORD_RANGE == (Start(images, k) % DWORD_RANGE + |images[k].png|) % DWORD_RANGE
  {
    PayloadSplit(images, k);
  }

  /** Image `k` lies at its start, and its entry gives this start modulo 2^32. */
  lemma {:induction false} ImageInPlace(images: seq<IconImage>, k: nat)
    requires k < |images|
    ensures var bytes := Icon(images);
      && Start(images, k) + |images[k].png| <= |bytes|
      && bytes[Start(images, k)..Start(images, k) + |images[k].png|] == images[k].png
      && HEADER_BYTES + ENTRY_BYTES * (k + 1) <= |bytes|
      && bytes[HEADER_BYTES + ENTRY_BYTES * k..HEADER_BYTES + ENTRY_BYTES * (k + 1)]
           == Entry(images[k], Start(images, k) % DWORD_RANGE)
  {
    EntriesAt(images, k);
    PayloadSplit(images, k);
    hide Entry, Entries, Word, Dword, Payload;
    var header := Word(0) + Word(1) + Word(|images| % WORD_RANGE);
    var entries := Entries(images, FirstOffset(|images|));
    var before, after := Payload(images[..k]), Payload(images[k + 1..]);
    SliceAfter(header, entries, ENTRY_BYTES * k, ENTRY_BYTES * (k + 1));
    SliceBefore(header + entries, Payload(images), HEADER_BYTES + ENTRY_BYTES * k, HEADER_BYTES + ENTRY_BYTES * (k + 1));
    SliceAfter(header + entries, Payload(images), |before|, |before| + |images[k].png|);
    SliceMiddle(before, images[k].png, after);
  }

  lemma {:induction false} SliceBefore(first: seq<byte>, rest: seq<byte>, lo: nat, hi: nat)
    requires lo <= hi <= |first|
    ensures (first + rest)[lo..hi] == first[lo..hi]
  {
  }

  lemma {:induction false} SliceMiddle(a: seq<byte>, b: seq<byte>, c: seq<byte>)
    ensures (a + b + c)[|a|..|a| + |b|] == b
  {
  }

  /** The images tile the file from the end of the directory to the end of the file. */
  lemma {:induction false} ImagesTileTheFile(images: seq<IconImage>)
    ensures Start(images, 0) == HEADER_BYTES + ENTRY_BYTES * |images|
    ensures forall k :: 0 <= k < |images| ==> Start(images, k + 1) == Start(images, k) + |images[k].png|
    ensures Start(images, |images|) == |Icon(images)|
  {
    forall k | 0 <= k < |images|
      ensures Start(images, k + 1) == Start(images, k) + |images[k].png|
    {
      StartsAdvance(images, k);
    }
    assert images[..|images|] == images;
  }

  /** The bytes are found at this offset. */
  predicate FoundAt(bytes: seq<byte>, offset: nat, wanted: seq<byte>) {
    offset + |wanted| <= |bytes| && bytes[offset..offset + |wanted|] == wanted
  }

  /** An entry reads as its image exactly if the image is found at the entry's offset. */
  lemma {:induction false} EntryReadsExactly(images: seq<IconImage>, k: nat)
    requires k < |images| && !TooLarge(images[k]) && 1 <= images[k].size <= 256
    ensures HEADER_BYTES + ENTRY_BYTES * (k + 1) <= |Icon(images)|
    ensures ReadEntry(Icon(images), HEADER_BYTES + ENTRY_BYTES * k) == Success(images[k])
      <==> FoundAt(Icon(images), Start(images, k) % DWORD_RANGE, images[k].png)
  {
    ImageInPlace(images, k);
    hide Icon, Entry, Start;
    EntryMeans(Icon(images), HEADER_BYTES + ENTRY_BYTES * k, images[k], Start(images, k) % DWORD_RANGE);
  }

  lemma {:induction false} EntryMeans(bytes: seq<byte>, at: nat, image: IconImage, offset: nat)
    requires at + ENTRY_BYTES <= |bytes| && bytes[at..at + ENTRY_BYTES] == Entry(image, offset)
    requires offset < DWORD_RANGE && |image.png| < DWORD_RANGE && 1 <= image.size <= 256
    ensures ReadEntry(bytes, at) == Success(image) <==> FoundAt(bytes, offset, image.png)
  {
    hide Entry, ReadWord, ReadDword;
    EntryFields(bytes, at, image, offset);
  }

  lemma {:induction false} EntryFields(bytes: seq<byte>, at: nat, image: IconImage, offset: nat)
    requires at + ENTRY_BYTES <= |bytes| && bytes[at..at + ENTRY_BYTES] == Entry(image, offset)
    requires offset < DWORD_RANGE && |image.png| < DWORD_RANGE
    ensures bytes[at] == bytes[at + 1] == SizeByte(image.size) && bytes[at + 2] == bytes[at + 3] == 0
    ensures ReadWord(bytes, at + 4) == 1 && ReadWord(bytes, at + 6) == 32
    ensures ReadDword(bytes, at + 8) == |image.png| && ReadDword(bytes, at + 12) == offset
  {
    hide Entry, Word, Dword, ReadWord, ReadDword, SizeByte;
    FieldsOf(image, offset);
    SliceOfSlice(bytes, at, ENTRY_BYTES, 4, 6);
    SliceOfSlice(bytes, at, ENTRY_BYTES, 6, 8);
    SliceOfSlice(bytes, at, ENTRY_BYTES, 8, 12);
    SliceOfSlice(bytes, at, ENTRY_BYTES, 12, 16);
    var entry := bytes[at..at + ENTRY_BYTES];
    assert entry[0] == bytes[at] && entry[1] == bytes[at + 1] && entry[2] == bytes[at + 2] && entry[3] == bytes[at + 3];
    WordReadsBack(bytes, at + 4, 1);
    WordReadsBack(bytes, at + 6, 32);
    DwordReadsBack(bytes, at + 8, |image.png|);
    DwordReadsBack(bytes, at + 12, offset);
  }

  lemma {:induction false} SliceOfSlice(bytes: seq<byte>, at: nat, n: nat, lo: nat, hi: nat)
    requires lo <= hi <= n && at + n <= |bytes|
    ensures bytes[at..at + n][lo..hi] == bytes[at + lo..at + hi]
  {
    var slice := bytes[at..at + n];
    assert forall i :: lo <= i < hi ==> slice[i] == bytes[at + i];
  }

  lemma {:induction false} FieldsOf(image: IconImage, offset: nat)
    ensures Entry(image, offset)[0] == Entry(image, offset)[1] == SizeByte(image.size)
    ensures Entry(image, offset)[2] == Entry(image, offset)[3] == 0
    ensures Entry(image, offset)[4..6] == Word(1) && Entry(image, offset)[6..8] == Word(32)
    ensures Entry(image, offset)[8..12] == Dword(|image.png|)
    ensures Entry(image, offset)[12..16] == Dword(offset)
  {
    hide Word, Dword, SizeByte;
  }

  /** Reading a directory gives these images exactly if each entry gives its image. */
  lemma {:induction false} DirectoryReadsExactly(bytes: seq<byte>, images: seq<IconImage>, from: nat)
    requires from <= |images| && HEADER_BYTES + ENTRY_BYTES * |images| <= |bytes|
    ensures ReadEntries(bytes, HEADER_BYTES + ENTRY_BYTES * from, |images| - from) == Success(images[from..])
      <==> forall k :: from <= k < |images| ==> ReadEntry(bytes, HEADER_BYTES + ENTRY_BYTES * k) == Success(images[k])
    decreases |images| - from
  {
    hide ReadEntry, ReadEntries;
    var at := HEADER_BYTES + ENTRY_BYTES * from;
    if from == |images| {
      NoEntries(bytes, at);
      assert images[from..] == [];
      return;
    }
    DirectoryReadsExactly(bytes, images, from + 1);
    assert HEADER_BYTES + ENTRY_BYTES * (from + 1) == at + ENTRY_BYTES;
    OneMoreEntry(bytes, at, |images| - from, images[from], images[from + 1..]);
    assert images[from..] == [images[from]] + images[from + 1..];
  }

  lemma {:induction false} NoEntries(bytes: seq<byte>, at: nat)
    ensures ReadEntries(bytes, at, 0) == Success([])
  {
  }

  lemma {:induction false} OneMoreEntry(bytes: seq<byte>, at: nat, count: nat, image: IconImage, rest: seq<IconImage>)
    requires count > 0 && at + ENTRY_BYTES <= |bytes|
    ensures ReadEntries(bytes, at, count) == Success([image] + rest)
      <==> ReadEntry(bytes, at) == Success(image) && ReadEntries(bytes, at + ENTRY_BYTES, count - 1) == Success(rest)
  {
    hide ReadEntry;
    var first, others := ReadEntry(bytes, at), ReadEntries(bytes, at + ENTRY_BYTES, count - 1);
    if first.Success? && others.Success? {
      assert ([first.value] + others.value)[0] == first.value && ([first.value] + others.value)[1..] == others.value;
      assert ([image] + rest)[0] == image && ([image] + rest)[1..] == rest;
    }
  }

  /** The count and the sizes fit their fields. */
  predicate FieldsFit(images: seq<IconImage>) {
    |images| < WORD_RANGE && forall k :: 0 <= k < |images| ==> 1 <= images[k].size <= 256
  }

  /** The entry's offset leads to the image: its start fits 32 bits, or the same bytes happen to be where the wrapped offset points. */
  predicate LeadsToImage(images: seq<IconImage>, k: nat)
    requires k < |images|
  {
    Start(images, k) < DWORD_RANGE || FoundAt(Icon(images), Start(images, k) % DWORD_RANGE, images[k].png)
  }

  /**
   For all images whose byte counts fit an entry, that is whenever the writer succeeds: reading the
   file gives back the same sizes and images if and only if the count and the sizes fit their
   fields and every start fits 32 bits, unless a wrapped offset happens to point at equal bytes.
   */
  lemma {:induction false} RoundTripExactly(images: seq<IconImage>)
    requires forall k :: 0 <= k < |images| ==> !TooLarge(images[k])
    ensures Decode(Icon(images)) == Success(images)
      <==> FieldsFit(images) && forall k :: 0 <= k < |images| ==> LeadsToImage(images, k)
  {
    hide Icon, ReadEntries, ReadEntry, ReadWord, Start, FoundAt;
    HeaderReadsBack(images);
    if !FieldsFit(images) {
      ReadEntriesShape(Icon(images), HEADER_BYTES, ReadWord(Icon(images), 4));
      return;
    }
    DirectoryFits(images);
    forall k | 0 <= k < |images|
      ensures ReadEntry(Icon(images), HEADER_BYTES + ENTRY_BYTES * k) == Success(images[k]) <==> LeadsToImage(images, k)
    {
      EntryReadsExactly(images, k);
      if Start(images, k) < DWORD_RANGE {
        FoundInPlace(images, k);
      }
    }
    DirectoryReadsExactly(Icon(images), images, 0);
    assert images[0..] == images;
  }

  lemma {:induction false} FoundInPlace(images: seq<IconImage>, k: nat)
    requires k < |images| && Start(images, k) < DWORD_RANGE
    ensures FoundAt(Icon(images), Start(images, k) % DWORD_RANGE, images[k].png)
  {
    hide Icon, Start, Entry;
    ImageInPlace(images, k);
  }

  lemma {:induction false} DirectoryFits(images: seq<IconImage>)
    ensures HEADER_BYTES + ENTRY_BYTES * |images| <= |Icon(images)|
  {
    hide Word, Payload, FirstOffset;
  }

  /** Within the limits of the format, reading the file gives back the same sizes and images. */
  lemma {:induction false} IconRoundTrip(images: seq<IconImage>)
    requires Representable(images)
    ensures Decode(Icon(images)) == Success(images)
  {
    hide Icon, Decode, Start;
    RoundTripExactly(images);
  }

  lemma {:induction false} HeaderReadsBack(images: seq<IconImage>)
    ensures |Icon(images)| >= HEADER_BYTES
    ensures ReadWord(Icon(images), 0) == 0 && ReadWord(Icon(images), 2) == 1
    ensures ReadWord(Icon(images), 4) == |images| % WORD_RANGE
  {
    hide Word, ReadWord, Entries, Payload, FirstOffset;
    var bytes := Icon(images);
    var a, b, c := Word(0), Word(1), Word(|images| % WORD_RANGE);
    var rest := Entries(images, FirstOffset(|images|)) + Payload(images);
    assert bytes == a + b + c + rest;
    assert [] + a + (b + c + rest) == bytes && a + b + (c + rest) == bytes && (a + b) + c + rest == bytes;
    SliceMiddle([], a, b + c + rest);
    SliceMiddle(a, b, c + rest);
    SliceMiddle(a + b, c, rest);
    WordReadsBack(bytes, 0, 0);
    WordReadsBack(bytes, 2, 1);
    WordReadsBack(bytes, 4, |images| % WORD_RANGE);
  }

  lemma {:induction false} ReadEntriesShape(bytes: seq<byte>, at: nat, count: nat)
    ensures var read := ReadEntries(bytes, at, count);
      read.Success? ==> |read.value| == count && forall k :: 0 <= k < count ==> 1 <= read.value[k].size <= 256
    decreases count
  {
    if count > 0 && at + ENTRY_BYTES <= |bytes| {
      ReadEntriesShape(bytes, at + ENTRY_BYTES, count - 1);
    }
  }
}
