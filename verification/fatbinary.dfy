/** The universal binary writer: a big-endian header and table, then each slice on a page of its own,
    and a reader that gets every slice back. */
module FatBinary {
  import opened Common

  type Byte = b: int | 0 <= b < 256

  const MAGIC := 0xCAFEBABF
  const ALIGN_POW2 := 14
  const ALIGN := 16384

  datatype Slice = Slice(cpu: int, sub: int, data: seq<Byte>)

  datatype Entry = Entry(cpu: int, sub: int, offset: nat, size: nat)

  // ---- struct.pack ----

  function Pow256(k: nat): (p: nat)
    ensures p >= 1
  {
    if k == 0 then 1 else 256 * Pow256(k - 1)
  }

  /** The `k` low bytes of `n`, most significant first. */
  function BigEndian(n: nat, k: nat): (b: seq<Byte>)
    ensures |b| == k
  {
    if k == 0 then [] else BigEndian(n / 256, k - 1) + [n % 256]
  }

  function FromBigEndian(b: seq<Byte>): nat {
    if b == [] then 0 else FromBigEndian(b[..|b| - 1]) * 256 + b[|b| - 1]
  }

  lemma {:induction false} BigEndianRoundTrip(n: nat, k: nat)
    requires n < Pow256(k)
    ensures FromBigEndian(BigEndian(n, k)) == n
  {
    if k > 0 {
      assert n / 256 < Pow256(k - 1);
      BigEndianRoundTrip(n / 256, k - 1);
      assert BigEndian(n, k)[..k - 1] == BigEndian(n / 256, k - 1);
    }
  }

  predicate FitsInt32(n: int) { -0x8000_0000 <= n < 0x8000_0000 }
  predicate FitsUint64(n: int) { 0 <= n < 0x1_0000_0000_0000_0000 }
  predicate FitsUint32(n: int) { 0 <= n < 0x1_0000_0000 }

  /** Two's complement. */
  function Int32(n: int): seq<Byte>
    requires FitsInt32(n)
  {
    BigEndian(if n < 0 then n + 0x1_0000_0000 else n, 4)
  }

  function FromInt32(b: seq<Byte>): int {
    var n := FromBigEndian(b);
    if n >= 0x8000_0000 then n - 0x1_0000_0000 else n
  }

  lemma {:induction false} Powers()
    ensures Pow256(4) == 0x1_0000_0000 && Pow256(8) == 0x1_0000_0000_0000_0000
  {
    assert Pow256(2) == 65536;
    assert Pow256(4) == 65536 * 65536;
    assert Pow256(6) == 65536 * 65536 * 65536;
  }

  lemma {:induction false} Int32RoundTrip(n: int)
    requires FitsInt32(n)
    ensures FromInt32(Int32(n)) == n
  {
    Powers();
    BigEndianRoundTrip(if n < 0 then n + 0x1_0000_0000 else n, 4);
  }

  lemma {:induction false} BytesBound(b: seq<Byte>)
    ensures FromBigEndian(b) < Pow256(|b|)
  {
    if b != [] { BytesBound(b[..|b| - 1]); }
  }

  /** A value fits a field exactly when some bytes of the field stand for it. */
  lemma {:induction false} FitsExactly(n: int)
    ensures FitsUint32(n) <==> exists b: seq<Byte> :: |b| == 4 && FromBigEndian(b) == n
    ensures FitsUint64(n) <==> exists b: seq<Byte> :: |b| == 8 && FromBigEndian(b) == n
    ensures FitsInt32(n) <==> exists b: seq<Byte> :: |b| == 4 && FromInt32(b) == n
  {
    Powers();
    forall b: seq<Byte> ensures FromBigEndian(b) < Pow256(|b|) { BytesBound(b); }
    if FitsUint32(n) { BigEndianRoundTrip(n, 4); }
    if FitsUint64(n) { BigEndianRoundTrip(n, 8); }
    if FitsInt32(n) { Int32RoundTrip(n); }
  }

  /** The magic number as it stands at the start of the file. */
  lemma {:induction false} MagicBytes()
    ensures BigEndian(MAGIC, 4) == [0xCA, 0xFE, 0xBA, 0xBF]
  {
    assert BigEndian(0xCA, 1) == [0xCA] && BigEndian(0xCAFE, 2) == [0xCA, 0xFE];
    assert BigEndian(0xCAFEBA, 3) == [0xCA, 0xFE, 0xBA];
  }

  // ---- layout ----

  function RoundUp(n: nat): nat { (n + ALIGN - 1) / ALIGN * ALIGN }

  lemma {:induction false} RoundsUp(n: nat)
    ensures RoundUp(n) % ALIGN == 0 && n <= RoundUp(n) < n + ALIGN
  {
  }

  function HeaderSize(count: nat): nat { 8 + 32 * count }

  /** What the offset loop lays out from `offset` on. */
  function Layout(slices: seq<Slice>, offset: nat): (entries: seq<Entry>)
    ensures |entries| == |slices|
  {
    if slices == [] then []
    else [Entry(slices[0].cpu, slices[0].sub, offset, |slices[0].data|)]
         + Layout(slices[1..], RoundUp(offset + |slices[0].data|))
  }

  /** Each slice starts on a page, after the header and after the one before it ends. */
  ghost predicate WellPlaced(slices: seq<Slice>, entries: seq<Entry>, from: nat) {
    && |entries| == |slices|
    && (forall i :: 0 <= i < |slices| ==> entries[i].offset % ALIGN == 0 && entries[i].offset >= from)
    && (forall i :: 0 <= i < |slices| ==>
          entries[i].size == |slices[i].data| && entries[i].cpu == slices[i].cpu && entries[i].sub == slices[i].sub)
    && (forall i, j :: 0 <= i < j < |slices| ==> entries[i].offset + entries[i].size <= entries[j].offset)
  }

  lemma {:induction false} LayoutPlacesWell(slices: seq<Slice>, offset: nat)
    requires offset % ALIGN == 0
    ensures WellPlaced(slices, Layout(slices, offset), offset)
  {
    hide RoundUp;
    if slices != [] {
      var next := RoundUp(offset + |slices[0].data|);
      RoundsUp(offset + |slices[0].data|);
      LayoutPlacesWell(slices[1..], next);
      var entries, rest := Layout(slices, offset), Layout(slices[1..], next);
      forall i | 1 <= i < |slices| ensures entries[i] == rest[i - 1] && slices[i] == slices[1..][i - 1] { }
      forall i, j | 0 <= i < j < |slices| ensures entries[i].offset + entries[i].size <= entries[j].offset {
        assert entries[j] == rest[j - 1];
        if i > 0 { assert entries[i] == rest[i - 1]; }
      }
    }
  }

  // ---- the file ----

  predicate Packable(e: Entry) {
    FitsInt32(e.cpu) && FitsInt32(e.sub) && FitsUint64(e.offset) && FitsUint64(e.size)
  }

  /** One line of the table, padded to 32 bytes. */
  function PackEntry(e: Entry): (b: seq<Byte>)
    requires Packable(e)
    ensures |b| == 32
  {
    Int32(e.cpu) + Int32(e.sub) + BigEndian(e.offset, 8) + BigEndian(e.size, 8) + BigEndian(ALIGN_POW2, 4) +
      [0, 0, 0, 0]
  }

  function UnpackEntry(b: seq<Byte>): Entry
    requires |b| == 32
  {
    Entry(FromInt32(b[..4]), FromInt32(b[4..8]), FromBigEndian(b[8..16]), FromBigEndian(b[16..24]))
  }

  lemma {:induction false} EntryRoundTrip(e: Entry)
    requires Packable(e)
    ensures UnpackEntry(PackEntry(e)) == e && PackEntry(e)[24..] == [0, 0, 0, 14, 0, 0, 0, 0]
  {
    Powers();
    EndsAligned(e);
    var b := PackEntry(e);
    assert b[..4] == Int32(e.cpu) && b[4..8] == Int32(e.sub);
    assert b[8..16] == BigEndian(e.offset, 8) && b[16..24] == BigEndian(e.size, 8);
    Int32RoundTrip(e.cpu);
    Int32RoundTrip(e.sub);
    BigEndianRoundTrip(e.offset, 8);
    BigEndianRoundTrip(e.size, 8);
  }

  lemma {:induction false} EndsAligned(e: Entry)
    requires Packable(e)
    ensures PackEntry(e)[24..] == [0, 0, 0, 14, 0, 0, 0, 0]
  {
    Alignment();
    LastEight(Int32(e.cpu), Int32(e.sub), BigEndian(e.offset, 8), BigEndian(e.size, 8));
    hide BigEndian, Int32;
  }

  lemma {:induction false} LastEight(a: seq<Byte>, b: seq<Byte>, c: seq<Byte>, d: seq<Byte>)
    requires |a| == 4 && |b| == 4 && |c| == 8 && |d| == 8
    ensures (a + b + c + d + [0, 0, 0, 14] + [0, 0, 0, 0])[24..] == [0, 0, 0, 14, 0, 0, 0, 0]
  {
  }

  lemma {:induction false} Alignment()
    ensures BigEndian(ALIGN_POW2, 4) == [0, 0, 0, 14]
  {
    assert BigEndian(0, 1) == [0] && BigEndian(0, 2) == [0, 0] && BigEndian(0, 3) == [0, 0, 0];
  }

  function Zeros(n: int): (b: seq<Byte>)
    ensures |b| == if n < 0 then 0 else n
  {
    if n <= 0 then [] else [0] + Zeros(n - 1)
  }

  /** A file holds the layout of `slices`: its header, its table, and every slice where the table says. */
  ghost predicate Holds(file: seq<Byte>, slices: seq<Slice>, entries: seq<Entry>) {
    && |entries| == |slices| && |file| >= HeaderSize(|slices|)
    && file[..4] == BigEndian(MAGIC, 4) && file[4..8] == BigEndian(|slices|, 4)
    && (forall i :: 0 <= i < |slices| ==>
          Packable(entries[i]) && file[HeaderSize(i)..HeaderSize(i + 1)] == PackEntry(entries[i]))
    && (forall i :: 0 <= i < |slices| ==>
          entries[i].offset + |slices[i].data| <= |file|
          && file[entries[i].offset..entries[i].offset + |slices[i].data|] == slices[i].data)
  }

  /** The offset loop. */
  method LayOut(slices: seq<Slice>) returns (entries: seq<Entry>)
    ensures entries == Layout(slices, RoundUp(HeaderSize(|slices|)))
  {
    hide RoundUp;
    var offset: nat := RoundUp(HeaderSize(|slices|));
    ghost var all := Layout(slices, offset);
    entries := [];
    for i := 0 to |slices|
      invariant all == entries + Layout(slices[i..], offset)
    {
      assert slices[i..][0] == slices[i] && slices[i..][1..] == slices[i + 1..];
      entries := entries + [Entry(slices[i].cpu, slices[i].sub, offset, |slices[i].data|)];
      offset := RoundUp(offset + |slices[i].data|);
    }
  }

  /** A file starts with the header and the table. */
  ghost predicate Headed(file: seq<Byte>, entries: seq<Entry>, count: nat) {
    && count <= |entries| && |file| >= HeaderSize(count)
    && file[..4] == BigEndian(MAGIC, 4) && file[4..8] == BigEndian(|entries|, 4)
    && forall i :: 0 <= i < count ==>
         Packable(entries[i]) && file[HeaderSize(i)..HeaderSize(i + 1)] == PackEntry(entries[i])
  }

  /** Headed files stay so when written on to. */
  lemma {:induction false} StaysHeaded(before: seq<Byte>, after: seq<Byte>, entries: seq<Entry>, count: nat)
    requires Headed(before, entries, count) && |before| <= |after| && after[..|before|] == before
    ensures Headed(after, entries, count)
  {
    Extends(before, after);
    forall i | 0 <= i < count ensures after[HeaderSize(i)..HeaderSize(i + 1)] == PackEntry(entries[i]) {
      assert before[HeaderSize(i)..HeaderSize(i + 1)] == PackEntry(entries[i]);
    }
  }

  /** What is in the file when a value does not fit: nothing, or the header and the entries before the first
      that does not. */
  ghost predicate CutShort(file: seq<Byte>, entries: seq<Entry>) {
    if !FitsUint32(|entries|) then file == []
    else exists k :: 0 <= k < |entries| && !Packable(entries[k]) && Headed(file, entries, k) && |file| == HeaderSize(k)
  }

  method WriteHeader(entries: seq<Entry>) returns (ok: bool, out: seq<Byte>)
    ensures ok <==> FitsUint32(|entries|) && forall i :: 0 <= i < |entries| ==> Packable(entries[i])
    ensures if ok then Headed(out, entries, |entries|) && |out| == HeaderSize(|entries|) else CutShort(out, entries)
  {
    hide BigEndian, PackEntry;
    if !FitsUint32(|entries|) {
      return false, [];
    }
    out := BigEndian(MAGIC, 4) + BigEndian(|entries|, 4);
    for i := 0 to |entries|
      invariant Headed(out, entries, i) && |out| == HeaderSize(i)
    {
      if !Packable(entries[i]) {
        return false, out;
      }
      ghost var before := out;
      out := out + PackEntry(entries[i]);
      StaysHeaded(before, out, entries, i);
      assert out[HeaderSize(i)..HeaderSize(i + 1)] == PackEntry(entries[i]);
    }
    ok := true;
  }

  /** The first `count` slices are where their entries say. */
  ghost predicate Laid(file: seq<Byte>, slices: seq<Slice>, entries: seq<Entry>, count: nat)
    requires |entries| == |slices|
  {
    && count <= |slices|
    && forall i :: 0 <= i < count ==>
         entries[i].offset + |slices[i].data| <= |file|
         && file[entries[i].offset..entries[i].offset + |slices[i].data|] == slices[i].data
  }

  lemma {:induction false} StaysLaid(before: seq<Byte>, after: seq<Byte>, slices: seq<Slice>, entries: seq<Entry>,
          count: nat)
    requires |entries| == |slices| && Laid(before, slices, entries, count) && |before| <= |after| &&
      after[..|before|] == before
    ensures Laid(after, slices, entries, count)
  {
    Extends(before, after);
    forall i | 0 <= i < count
      ensures after[entries[i].offset..entries[i].offset + |slices[i].data|] == slices[i].data
    {
      assert before[entries[i].offset..entries[i].offset + |slices[i].data|] == slices[i].data;
    }
  }

  /** Padding up to a slice's offset and writing its bytes lays it, and moves nothing before it. */
  lemma {:induction false} OneMoreLaid(before: seq<Byte>, padding: nat, slices: seq<Slice>, entries: seq<Entry>, i: nat)
    requires |entries| == |slices| && i < |slices| && |before| + padding == entries[i].offset
    requires Headed(before, entries, |entries|) && Laid(before, slices, entries, i)
    ensures var after := before + Zeros(padding) + slices[i].data;
            Headed(after, entries, |entries|) && Laid(after, slices, entries, i + 1)
  {
    hide BigEndian, PackEntry;
    var after := before + Zeros(padding) + slices[i].data;
    assert after[..|before|] == before;
    StaysHeaded(before, after, entries, |entries|);
    StaysLaid(before, after, slices, entries, i);
    hide Headed;
    assert after[entries[i].offset..entries[i].offset + |slices[i].data|] == slices[i].data;
  }

  /** `main`, once the slices are read: what the file then holds, and whether it is whole or `struct` raised
      for a value that does not fit its field. No padding is ever negative, so each slice lands where its entry
      says. */
  method WriteFat(slices: seq<Slice>) returns (ok: bool, out: seq<Byte>)
    ensures ok <==>
      FitsUint32(|slices|) && forall i :: 0 <= i < |slices| ==>
        Packable(Layout(slices, RoundUp(HeaderSize(|slices|)))[i])
    ensures var entries := Layout(slices, RoundUp(HeaderSize(|slices|)));
            if ok then Holds(out, slices, entries) else CutShort(out, entries)
  {
    hide RoundUp, BigEndian, PackEntry, Layout, Headed, Packable, CutShort;
    LayoutIsSound(slices);
    var entries := LayOut(slices);
    ok, out := WriteHeader(entries);
    if !ok {
      return;
    }
    for i := 0 to |slices|
      invariant Headed(out, entries, |entries|) && Laid(out, slices, entries, i)
      invariant i < |slices| ==> |out| <= entries[i].offset
    {
      ghost var before := out;
      var padding := entries[i].offset - |out|;
      out := out + Zeros(padding);
      out := out + slices[i].data;
      OneMoreLaid(before, padding, slices, entries, i);
    }
    LaidIsHeld(out, slices, entries);
  }

  lemma {:induction false} LaidIsHeld(file: seq<Byte>, slices: seq<Slice>, entries: seq<Entry>)
    requires |entries| == |slices| && Headed(file, entries, |entries|) && Laid(file, slices, entries, |slices|)
    ensures Holds(file, slices, entries)
  {
    hide BigEndian, PackEntry, Packable;
  }

  /** What was written stays where it was. */
  lemma {:induction false} Extends(before: seq<Byte>, after: seq<Byte>)
    requires |before| <= |after| && after[..|before|] == before
    ensures forall a, b :: 0 <= a <= b <= |before| ==> after[a..b] == before[a..b]
  {
    forall a, b | 0 <= a <= b <= |before| ensures after[a..b] == before[a..b] {
      assert forall k :: a <= k < b ==> after[k] == after[..|before|][k] == before[k];
    }
  }

  // ---- reading it back ----

  function ReadSlices(file: seq<Byte>, i: nat, count: nat): seq<Slice>
    requires i <= count
    decreases count - i
  {
    if i == count || HeaderSize(i + 1) > |file| then []
    else
      var e := UnpackEntry(file[HeaderSize(i)..HeaderSize(i + 1)]);
      (if e.offset + e.size <= |file| then [Slice(e.cpu, e.sub, file[e.offset..e.offset + e.size])] else [])
      + ReadSlices(file, i + 1, count)
  }

  /** A loader's reading of a universal binary: the magic, the count, then each entry's bytes. */
  function Read(file: seq<Byte>): Option<seq<Slice>> {
    if |file| < 8 || FromBigEndian(file[..4]) != MAGIC then None
    else Some(ReadSlices(file, 0, FromBigEndian(file[4..8])))
  }

  /** The slices an entry's size and processor are taken from. */
  ghost predicate Describe(entries: seq<Entry>, slices: seq<Slice>) {
    |entries| == |slices| && forall j :: 0 <= j < |slices| ==>
      entries[j].size == |slices[j].data| && entries[j].cpu == slices[j].cpu && entries[j].sub == slices[j].sub
  }

  lemma {:induction false} HeldAt(file: seq<Byte>, slices: seq<Slice>, entries: seq<Entry>, i: nat)
    requires Holds(file, slices, entries) && Describe(entries, slices) && i < |slices|
    ensures var e := entries[i];
            && HeaderSize(i + 1) <= |file| && UnpackEntry(file[HeaderSize(i)..HeaderSize(i + 1)]) == e
            && e.offset + e.size <= |file| && Slice(e.cpu, e.sub, file[e.offset..e.offset + e.size]) == slices[i]
  {
    hide PackEntry, UnpackEntry, Packable, BigEndian;
    EntryRoundTrip(entries[i]);
  }

  lemma {:induction false} ReadOne(file: seq<Byte>, i: nat, count: nat, e: Entry, s: Slice)
    requires i < count && HeaderSize(i + 1) <= |file| && UnpackEntry(file[HeaderSize(i)..HeaderSize(i + 1)]) == e
    requires e.offset + e.size <= |file| && Slice(e.cpu, e.sub, file[e.offset..e.offset + e.size]) == s
    ensures ReadSlices(file, i, count) == [s] + ReadSlices(file, i + 1, count)
  {
    hide UnpackEntry, HeaderSize;
  }

  lemma {:induction false} ReadHeld(file: seq<Byte>, slices: seq<Slice>, entries: seq<Entry>, i: nat)
    requires Holds(file, slices, entries) && Describe(entries, slices) && i < |slices|
    ensures ReadSlices(file, i, |slices|) == [slices[i]] + ReadSlices(file, i + 1, |slices|)
  {
    HeldAt(file, slices, entries, i);
    hide *;
    ReadOne(file, i, |slices|, entries[i], slices[i]);
  }

  lemma {:induction false} ReadNone(file: seq<Byte>, slices: seq<Slice>)
    ensures ReadSlices(file, |slices|, |slices|) == slices[|slices|..]
  {
  }

  lemma {:induction false} ReadSlicesFinds(file: seq<Byte>, slices: seq<Slice>, entries: seq<Entry>, i: nat)
    requires Holds(file, slices, entries) && Describe(entries, slices) && i <= |slices|
    ensures ReadSlices(file, i, |slices|) == slices[i..]
    decreases |slices| - i
  {
    if i == |slices| {
      ReadNone(file, slices);
    } else {
      assert |entries| == |slices|;
      hide *;
      ReadHeld(file, slices, entries, i);
      ReadSlicesFinds(file, slices, entries, i + 1);
      FirstOfRest(slices, i);
    }
  }

  lemma {:induction false} FirstOfRest(slices: seq<Slice>, i: nat)
    requires i < |slices|
    ensures slices[i..] == [slices[i]] + slices[i + 1..]
  {
  }

  /** Reading back what was written returns every slice's bytes, and its processor, unchanged. */
  lemma {:induction false} ReadUndoesWrite(file: seq<Byte>, slices: seq<Slice>)
    requires FitsUint32(|slices|)
    requires Holds(file, slices, Layout(slices, RoundUp(HeaderSize(|slices|))))
    ensures Read(file) == Some(slices)
  {
    Powers();
    var offset := RoundUp(HeaderSize(|slices|));
    RoundsUp(HeaderSize(|slices|));
    LayoutPlacesWell(slices, offset);
    BigEndianRoundTrip(MAGIC, 4);
    BigEndianRoundTrip(|slices|, 4);
    ReadSlicesFinds(file, slices, Layout(slices, offset), 0);
  }

  /** Where the slices go, whatever their number and sizes: on page boundaries, after the header and
      table, and apart from each other. */
  lemma {:induction false} LayoutIsSound(slices: seq<Slice>)
    ensures var entries := Layout(slices, RoundUp(HeaderSize(|slices|)));
            WellPlaced(slices, entries, HeaderSize(|slices|))
  {
    RoundsUp(HeaderSize(|slices|));
    LayoutPlacesWell(slices, RoundUp(HeaderSize(|slices|)));
  }

  // ---- reading the inputs ----

  datatype Checked = Accepted | TooSmall | NotMachO(magic: nat)

  /** The test each input passes before it is taken as a slice. */
  function CheckInput(data: seq<Byte>): Checked {
    if |data| < 4 then TooSmall
    else
      var magic := FromBigEndian(data[..4]);
      if magic == 0xFEEDFACF || magic == 0xCFFAEDFE then Accepted else NotMachO(magic)
  }

  /** A 64-bit Mach-O file is accepted in either byte order, by its first four bytes alone. */
  lemma {:induction false} AcceptsBothByteOrders(data: seq<Byte>)
    ensures CheckInput(data).Accepted? <==>
            |data| >= 4 && (data[..4] == [0xFE, 0xED, 0xFA, 0xCF] || data[..4] == [0xCF, 0xFA, 0xED, 0xFE])
  {
    if |data| >= 4 {
      var b := data[..4];
      var b0: int, b1: int, b2: int, b3: int := b[0], b[1], b[2], b[3];
      assert b == [b0, b1, b2, b3];
      assert b[..3] == [b0, b1, b2] && b[..3][..2] == [b0, b1] && b[..3][..2][..1] == [b0] && [b0][..0] == [];
      assert FromBigEndian([b0]) == b0;
      assert FromBigEndian([b0, b1]) == b0 * 256 + b1;
      assert FromBigEndian([b0, b1, b2]) == (b0 * 256 + b1) * 256 + b2;
      assert FromBigEndian(b) == ((b0 * 256 + b1) * 256 + b2) * 256 + b3;
    }
  }

  const CPU_TYPE_X86_64 := 0x0100_0007
  const CPU_TYPE_ARM64 := 0x0100_000C
  const CPU_SUBTYPE_X86_64_ALL := 3
  const CPU_SUBTYPE_ARM64_ALL := 0

  datatype Combined = Written(file: seq<Byte>) | Rejected(input: nat, why: Checked) | DoesNotFit(written: seq<Byte>)

  function Inputs(amd64: seq<Byte>, arm64: seq<Byte>): seq<Slice> {
    [Slice(CPU_TYPE_X86_64, CPU_SUBTYPE_X86_64_ALL, amd64), Slice(CPU_TYPE_ARM64, CPU_SUBTYPE_ARM64_ALL, arm64)]
  }

  /** `main`, from the bytes of its two inputs: the first that is no Mach-O file is what it reports, and what
      it writes reads back as both, each under its own processor. */
  method Combine(amd64: seq<Byte>, arm64: seq<Byte>) returns (r: Combined)
    ensures r.Rejected? <==> !CheckInput(amd64).Accepted? || !CheckInput(arm64).Accepted?
    ensures r.Rejected? ==>
      r == if !CheckInput(amd64).Accepted? then Rejected(0, CheckInput(amd64)) else Rejected(1, CheckInput(arm64))
    ensures r.Written? ==> Read(r.file) == Some(Inputs(amd64, arm64))
    ensures r.DoesNotFit? ==> CutShort(r.written, Layout(Inputs(amd64, arm64), RoundUp(HeaderSize(2))))
  {
    hide CutShort, Read, CheckInput, Layout, RoundUp, BigEndian;
    var slices: seq<Slice> := [];
    var inputs := Inputs(amd64, arm64);
    assert inputs[0].data == amd64 && inputs[1].data == arm64;
    for i := 0 to 2
      invariant slices == inputs[..i]
      invariant forall j :: 0 <= j < i ==> CheckInput(inputs[j].data).Accepted?
    {
      var checked := CheckInput(inputs[i].data);
      if !checked.Accepted? {
        assert i == 1 ==> CheckInput(inputs[0].data).Accepted?;
        return Rejected(i, checked);
      }
      slices := slices + [inputs[i]];
    }
    assert slices == inputs && CheckInput(inputs[0].data).Accepted? && CheckInput(inputs[1].data).Accepted?;
    var whole, file := WriteFat(slices);
    if !whole {
      return DoesNotFit(file);
    }
    ReadUndoesWrite(file, slices);
    return Written(file);
  }
}
