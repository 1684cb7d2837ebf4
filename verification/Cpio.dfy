/** The walk over an archive in the old binary cpio format (kernel/fs/cpiofs.c), and that
    format's encoder as the cpio(5) manual page defines it: 26-byte headers of 16-bit
    words, 32-bit values with the high word first, names and data padded to even length. */
module Cpio {
  import opened Bytes
  import opened FsTree

  const MAGIC := 0x71C7  // octal 070707
  const HEADER := 26
  const TRAILER: Name := [0x54, 0x52, 0x41, 0x49, 0x4c, 0x45, 0x52, 0x21, 0x21, 0x21]

  function Word(image: seq<Byte>, i: nat): nat
    requires i + 1 < |image|
  { var low: nat, high: nat := image[i], image[i + 1]; low + 256 * high }

  /** The first NUL from `i` on, or the end of the image. */
  function NulAt(image: seq<Byte>, i: nat): (j: nat)
    requires i <= |image|
    ensures i <= j <= |image| && (forall k :: i <= k < j ==> image[k] != 0) && (j < |image| ==> image[j] == 0)
    decreases |image| - i
  { if i == |image| || image[i] == 0 then i else NulAt(image, i + 1) }

  function Even(n: int): int { if n % 2 != 0 then n + 1 else n }

  // ---- one header

  predicate MagicOk(image: seq<Byte>, off: nat)
    requires off + HEADER <= |image|
  { Word(image, off) == MAGIC }

  function NameAt(image: seq<Byte>, off: nat): Name
    requires off + HEADER <= |image|
  { image[off + HEADER..NulAt(image, off + HEADER)] }

  /** The file's length as the code computes it in 32-bit signed arithmetic. */
  function LengthAt(image: seq<Byte>, off: nat): int
    requires off + HEADER <= |image|
  {
    var high, low := Word(image, off + 22), Word(image, off + 24);
    (if high < 0x8000 then high * 0x1_0000 else high * 0x1_0000 - 0x1_0000_0000) + low
  }

  /** That is the two words, the high one first, as a signed 32-bit number. */
  lemma LengthWords(image: seq<Byte>, off: nat)
    requires off + HEADER <= |image|
    ensures -0x8000_0000 <= LengthAt(image, off) < 0x8000_0000
    ensures LengthAt(image, off) % 0x1_0000_0000 == Word(image, off + 22) * 0x1_0000 + Word(image, off + 24)
  {
  }

  function DataAt(image: seq<Byte>, off: nat): nat
    requires off + HEADER <= |image|
  { off + HEADER + Even(Word(image, off + 20)) }

  function NextAt(image: seq<Byte>, off: nat): int
    requires off + HEADER <= |image|
  { DataAt(image, off) + Even(LengthAt(image, off)) }

  /** With a high size word below 0x8000 a step advances by an even amount of at least one
      header, past the file's data. */
  lemma StepAdvances(image: seq<Byte>, off: nat)
    requires off + HEADER <= |image| && Word(image, off + 22) < 0x8000
    ensures NextAt(image, off) >= off + HEADER && (NextAt(image, off) - off) % 2 == 0
    ensures off + HEADER <= DataAt(image, off) <= DataAt(image, off) + LengthAt(image, off) <= NextAt(image, off)
  {
  }

  // ---- the walk

  /** Everything the walk from `off` on reads lies in the image, names fit their field,
      and sizes are non-negative. */
  ghost predicate Walkable(image: seq<Byte>, off: nat)
    decreases |image| - off
  {
    && off + HEADER <= |image|
    && (MagicOk(image, off) ==>
          && NulAt(image, off + HEADER) < |image|
          && (NameAt(image, off) != TRAILER ==>
                && |NameAt(image, off)| < 128
                && Word(image, off + 22) < 0x8000
                && (StepAdvances(image, off); Walkable(image, NextAt(image, off)))))
  }

  /** A file as the walk finds it: its data are `length` bytes of the image from `data`. */
  datatype Found = Found(name: Name, data: nat, length: nat)

  datatype Mounted = Bad | Files(files: seq<Found>)

  function Prepend(f: Found, m: Mounted): Mounted {
    match m case Bad => Bad case Files(fs) => Files([f] + fs)
  }

  /** What a mount of the archive at `off` finds: Bad if a header has the wrong magic. */
  ghost function Walked(image: seq<Byte>, off: nat): Mounted
    requires Walkable(image, off)
    decreases |image| - off
  {
    if !MagicOk(image, off) then Bad
    else if NameAt(image, off) == TRAILER then Files([])
    else
      StepAdvances(image, off);
      Prepend(Found(NameAt(image, off), DataAt(image, off), LengthAt(image, off)),
              Walked(image, NextAt(image, off)))
  }

  /** File data lie behind their headers, inside the image, disjoint and in archive order. */
  ghost predicate InOrder(files: seq<Found>, from: nat, end: nat) {
    && (forall i :: 0 <= i < |files| ==> from <= files[i].data && files[i].data + files[i].length <= end)
    && (forall i, j :: 0 <= i < j < |files| ==> files[i].data + files[i].length <= files[j].data)
  }

  lemma {:induction false} RegionsInOrder(image: seq<Byte>, off: nat)
    requires Walkable(image, off) && Walked(image, off).Files?
    ensures InOrder(Walked(image, off).files, off + HEADER, |image|)
    decreases |image| - off
  {
    if NameAt(image, off) != TRAILER {
      StepAdvances(image, off);
      RegionsInOrder(image, NextAt(image, off));
    }
  }

  /** The headers that a walk visits, the last of them the trailer. */
  ghost predicate Headers(image: seq<Byte>, offs: seq<nat>) {
    && |offs| > 0
    && (forall i :: 0 <= i < |offs| ==> offs[i] + HEADER <= |image| && MagicOk(image, offs[i]))
    && (forall i :: 0 <= i < |offs| - 1 ==>
          NameAt(image, offs[i]) != TRAILER && offs[i + 1] == NextAt(image, offs[i]))
    && NameAt(image, offs[|offs| - 1]) == TRAILER
  }

  /** A mount succeeds exactly when every header up to the trailer has the right magic. */
  lemma MountSucceedsIff(image: seq<Byte>, off: nat)
    requires Walkable(image, off)
    ensures Walked(image, off).Files? <==> exists offs :: Headers(image, offs) && offs[0] == off
  {
    if Walked(image, off).Files? {
      var offs := HeadersOf(image, off);
    }
    forall offs | Headers(image, offs) && offs[0] == off ensures Walked(image, off).Files? {
      HeadersMount(image, offs);
    }
  }

  lemma {:induction false} HeadersOf(image: seq<Byte>, off: nat) returns (offs: seq<nat>)
    requires Walkable(image, off) && Walked(image, off).Files?
    ensures Headers(image, offs) && offs[0] == off
    decreases |image| - off
  {
    if NameAt(image, off) == TRAILER {
      offs := [off];
    } else {
      StepAdvances(image, off);
      var rest := HeadersOf(image, NextAt(image, off));
      HeadersMore(image, off, rest);
      offs := [off] + rest;
    }
  }

  lemma HeadersMore(image: seq<Byte>, off: nat, rest: seq<nat>)
    requires off + HEADER <= |image| && MagicOk(image, off) && NameAt(image, off) != TRAILER
    requires Headers(image, rest) && rest[0] == NextAt(image, off)
    ensures Headers(image, [off] + rest)
  {
    var offs := [off] + rest;
    assert forall i :: 0 < i < |offs| ==> offs[i] == rest[i - 1];
  }

  lemma {:induction false} HeadersMount(image: seq<Byte>, offs: seq<nat>)
    requires Headers(image, offs) && Walkable(image, offs[0])
    ensures Walked(image, offs[0]).Files?
    decreases |offs|
  {
    if |offs| > 1 {
      assert offs[1..][0] == NextAt(image, offs[0]);
      HeadersMount(image, offs[1..]);
    }
  }

  // ---- the encoder

  /** `meta` is the 18 bytes between the magic and the name size (device, inode, mode and
      so on), which the walk does not look at. */
  datatype Entry = Entry(meta: seq<Byte>, name: Name, content: seq<Byte>)

  ghost predicate GoodName(name: Name) {
    && 0 < |name| < 128 && name != TRAILER
    && forall i :: 0 <= i < |name| ==> name[i] != 0 && name[i] != SLASH
  }

  ghost predicate GoodEntry(e: Entry) {
    |e.meta| == 18 && GoodName(e.name) && |e.content| < 0x8000_0000
  }

  function WordBytes(w: nat): seq<Byte>
    requires w < 0x1_0000
  { [w % 256, w / 256] }

  function Pad(n: nat): seq<Byte> { if n % 2 == 0 then [] else [0] }

  function EncodeHeader(meta: seq<Byte>, nameSize: nat, size: nat): seq<Byte>
    requires nameSize < 0x1_0000 && size < 0x8000_0000
  {
    WordBytes(MAGIC) + meta + WordBytes(nameSize) + WordBytes(size / 0x1_0000) + WordBytes(size % 0x1_0000)
  }

  function EncodeName(name: Name): seq<Byte> { name + [0] + Pad(|name| + 1) }

  function EncodeEntry(meta: seq<Byte>, name: Name, content: seq<Byte>): seq<Byte>
    requires |name| < 128 && |content| < 0x8000_0000
  {
    EncodeHeader(meta, |name| + 1, |content|) + EncodeName(name) + content + Pad(|content|)
  }

  function Zeros18(): seq<Byte> { [0, 0, 0, 0, 0, 0, 0, 0, 0, 0, 0, 0, 0, 0, 0, 0, 0, 0] }

  ghost predicate AllGood(es: seq<Entry>) { forall i :: 0 <= i < |es| ==> GoodEntry(es[i]) }

  ghost function Encode(es: seq<Entry>): seq<Byte>
    requires AllGood(es)
  {
    if |es| == 0 then EncodeEntry(Zeros18(), TRAILER, [])
    else EncodeEntry(es[0].meta, es[0].name, es[0].content) + Encode(es[1..])
  }

  /** The format on literal bytes: the file "a" holding "b", and the entry TRAILER!!! that
      ends every archive. */
  lemma EntryBytes()
    ensures EncodeEntry(Zeros18(), [0x61], [0x62]) ==
            [0xC7, 0x71, 0, 0, 0, 0, 0, 0, 0, 0, 0, 0, 0, 0, 0, 0, 0, 0, 0, 0, 2, 0, 0, 0, 1, 0]
            + [0x61, 0, 0x62, 0]
  {
    HeaderBytes(2, 1);
  }

  lemma TrailerBytes()
    ensures Encode([]) ==
            [0xC7, 0x71, 0, 0, 0, 0, 0, 0, 0, 0, 0, 0, 0, 0, 0, 0, 0, 0, 0, 0, 11, 0, 0, 0, 0, 0]
            + [0x54, 0x52, 0x41, 0x49, 0x4c, 0x45, 0x52, 0x21, 0x21, 0x21, 0, 0]
  {
    HeaderBytes(11, 0);
    assert EncodeName(TRAILER) == [0x54, 0x52, 0x41, 0x49, 0x4c, 0x45, 0x52, 0x21, 0x21, 0x21, 0, 0];
  }

  lemma HeaderBytes(nameSize: Byte, size: Byte)
    ensures EncodeHeader(Zeros18(), nameSize, size) ==
            [0xC7, 0x71, 0, 0, 0, 0, 0, 0, 0, 0, 0, 0, 0, 0, 0, 0, 0, 0, 0, 0, nameSize, 0, 0, 0, size, 0]
  {
  }

  /** A header is accepted exactly if it starts with the two bytes of octal 070707, the low
      one first. */
  lemma MagicBytes(image: seq<Byte>, off: nat)
    requires off + 26 <= |image|
    ensures MagicOk(image, off) <==> image[off] == 0xC7 && image[off + 1] == 0x71
  {
  }

  // ---- decoding what was encoded

  /** Reading through a suffix of the image. */
  lemma Behind(image: seq<Byte>, off: nat, a: seq<Byte>, b: seq<Byte>)
    requires off <= |image| && image[off..] == a + b
    ensures off + |a| <= |image| && image[off + |a|..] == b
    ensures forall k :: 0 <= k < |a| ==> image[off + k] == a[k]
  {
    forall k | 0 <= k < |a| ensures image[off + k] == a[k] {
      assert image[off..][k] == (a + b)[k];
    }
    assert (a + b)[|a|..] == b;
  }

  lemma WordRead(image: seq<Byte>, i: nat, w: nat)
    requires w < 0x1_0000 && i + 1 < |image|
    requires image[i] == WordBytes(w)[0] && image[i + 1] == WordBytes(w)[1]
    ensures Word(image, i) == w
  {
  }

  lemma HeaderRead(image: seq<Byte>, off: nat, meta: seq<Byte>, nameSize: nat, size: nat, rest: seq<Byte>)
    requires |meta| == 18 && nameSize < 0x1_0000 && size < 0x8000_0000 && off <= |image|
    requires image[off..] == EncodeHeader(meta, nameSize, size) + rest
    ensures off + HEADER <= |image| && image[off + HEADER..] == rest
    ensures MagicOk(image, off) && Word(image, off + 20) == nameSize
    ensures Word(image, off + 22) == size / 0x1_0000 && Word(image, off + 24) == size % 0x1_0000
  {
    var h := EncodeHeader(meta, nameSize, size);
    Behind(image, off, h, rest);
    HeaderFields(meta, nameSize, size);
    assert image[off] == h[0] && image[off + 1] == h[1];
    assert image[off + 20] == h[20] && image[off + 21] == h[21];
    assert image[off + 22] == h[22] && image[off + 23] == h[23];
    assert image[off + 24] == h[24] && image[off + 25] == h[25];
    WordRead(image, off, MAGIC);
    WordRead(image, off + 20, nameSize);
    WordRead(image, off + 22, size / 0x1_0000);
    WordRead(image, off + 24, size % 0x1_0000);
  }

  lemma HeaderFields(meta: seq<Byte>, nameSize: nat, size: nat)
    requires |meta| == 18 && nameSize < 0x1_0000 && size < 0x8000_0000
    ensures var h := EncodeHeader(meta, nameSize, size);
            && |h| == HEADER
            && h[0] == WordBytes(MAGIC)[0] && h[1] == WordBytes(MAGIC)[1]
            && h[20] == WordBytes(nameSize)[0] && h[21] == WordBytes(nameSize)[1]
            && h[22] == WordBytes(size / 0x1_0000)[0] && h[23] == WordBytes(size / 0x1_0000)[1]
            && h[24] == WordBytes(size % 0x1_0000)[0] && h[25] == WordBytes(size % 0x1_0000)[1]
  {
  }

  lemma NameRead(image: seq<Byte>, at: nat, name: Name, rest: seq<Byte>)
    requires at <= |image| && image[at..] == EncodeName(name) + rest
    requires forall i :: 0 <= i < |name| ==> name[i] != 0
    ensures at + |name| < |image| && NulAt(image, at) == at + |name| && image[at..at + |name|] == name
    ensures at + Even(|name| + 1) <= |image| && image[at + Even(|name| + 1)..] == rest
  {
    Behind(image, at, EncodeName(name), rest);
    assert forall k :: 0 <= k < |name| ==> image[at + k] == EncodeName(name)[k] == name[k];
    assert image[at + |name|] == EncodeName(name)[|name|] == 0;
    assert forall k :: at <= k < at + |name| ==> image[k] == name[k - at];
    NulFound(image, at, at + |name|);
  }

  lemma NulFound(image: seq<Byte>, i: nat, j: nat)
    requires i <= j < |image| && image[j] == 0 && forall k :: i <= k < j ==> image[k] != 0
    ensures NulAt(image, i) == j
    decreases j - i
  {
    if i < j { NulFound(image, i + 1, j); }
  }

  /** The header and name of an encoded entry are read back. */
  lemma EntryHead(image: seq<Byte>, off: nat, meta: seq<Byte>, name: Name, size: nat, tail: seq<Byte>)
    requires |meta| == 18 && |name| < 128 && size < 0x8000_0000 && off <= |image|
    requires forall i :: 0 <= i < |name| ==> name[i] != 0
    requires image[off..] == EncodeHeader(meta, |name| + 1, size) + (EncodeName(name) + tail)
    ensures off + HEADER <= |image| && MagicOk(image, off) && Word(image, off + 22) < 0x8000
    ensures NulAt(image, off + HEADER) < |image| && NameAt(image, off) == name
    ensures LengthAt(image, off) == size
    ensures DataAt(image, off) <= |image| && image[DataAt(image, off)..] == tail
  {
    HeaderRead(image, off, meta, |name| + 1, size, EncodeName(name) + tail);
    NameRead(image, off + HEADER, name, tail);
  }

  lemma ContentRead(image: seq<Byte>, data: nat, content: seq<Byte>, rest: seq<Byte>)
    requires data <= |image| && image[data..] == content + Pad(|content|) + rest
    ensures data + Even(|content|) <= |image|
    ensures image[data..data + |content|] == content
    ensures image[data + Even(|content|)..] == rest
  {
    assert content + Pad(|content|) + rest == content + (Pad(|content|) + rest);
    Behind(image, data, content, Pad(|content|) + rest);
    Behind(image, data + |content|, Pad(|content|), rest);
  }

  /** One encoded entry is read back, and the walk goes on behind it. */
  lemma EntryRead(image: seq<Byte>, off: nat, meta: seq<Byte>, name: Name, content: seq<Byte>, rest: seq<Byte>)
    requires |meta| == 18 && |name| < 128 && |content| < 0x8000_0000 && off <= |image|
    requires forall i :: 0 <= i < |name| ==> name[i] != 0
    requires image[off..] == EncodeEntry(meta, name, content) + rest
    ensures off + HEADER <= |image| && MagicOk(image, off) && Word(image, off + 22) < 0x8000
    ensures NulAt(image, off + HEADER) < |image| && NameAt(image, off) == name
    ensures LengthAt(image, off) == |content|
    ensures DataAt(image, off) + |content| <= NextAt(image, off) <= |image|
    ensures image[DataAt(image, off)..DataAt(image, off) + |content|] == content
    ensures image[NextAt(image, off)..] == rest
  {
    var tail := content + Pad(|content|) + rest;
    EntrySplit(meta, name, content, rest);
    EntryHead(image, off, meta, name, |content|, tail);
    ContentRead(image, DataAt(image, off), content, rest);
  }

  lemma EntrySplit(meta: seq<Byte>, name: Name, content: seq<Byte>, rest: seq<Byte>)
    requires |name| < 128 && |content| < 0x8000_0000
    ensures EncodeEntry(meta, name, content) + rest ==
            EncodeHeader(meta, |name| + 1, |content|) + (EncodeName(name) + (content + Pad(|content|) + rest))
  {
  }

  /** What the walk finds is what was encoded: the names in order, and behind each the
      entry's own bytes. */
  ghost predicate Matches(image: seq<Byte>, files: seq<Found>, es: seq<Entry>) {
    && |files| == |es|
    && forall i :: 0 <= i < |es| ==>
         && files[i].name == es[i].name && files[i].length == |es[i].content|
         && files[i].data + files[i].length <= |image|
         && image[files[i].data..files[i].data + files[i].length] == es[i].content
  }

  lemma MatchesMore(image: seq<Byte>, f: Found, files: seq<Found>, es: seq<Entry>)
    requires |es| > 0 && Matches(image, files, es[1..])
    requires f.name == es[0].name && f.length == |es[0].content| && f.data + f.length <= |image|
    requires image[f.data..f.data + f.length] == es[0].content
    ensures Matches(image, [f] + files, es)
  {
    var fs := [f] + files;
    assert forall i :: 0 < i < |fs| ==> fs[i] == files[i - 1] && es[i] == es[1..][i - 1];
  }

  lemma TrailerWalk(image: seq<Byte>, off: nat)
    requires off <= |image| && image[off..] == EncodeEntry(Zeros18(), TRAILER, [])
    ensures Walkable(image, off) && Walked(image, off) == Files([])
  {
    assert image[off..] == EncodeEntry(Zeros18(), TRAILER, []) + [];
    EntryRead(image, off, Zeros18(), TRAILER, [], []);
  }

  lemma EntryWalk(image: seq<Byte>, off: nat, e: Entry, rest: seq<Byte>)
    requires GoodEntry(e) && off <= |image| && image[off..] == EncodeEntry(e.meta, e.name, e.content) + rest
    requires off + HEADER <= |image| && 0 <= NextAt(image, off) && Walkable(image, NextAt(image, off))
    ensures Walkable(image, off)
    ensures Walked(image, off) ==
            Prepend(Found(e.name, DataAt(image, off), |e.content|), Walked(image, NextAt(image, off)))
    ensures DataAt(image, off) + |e.content| <= |image|
    ensures image[DataAt(image, off)..DataAt(image, off) + |e.content|] == e.content
  {
    EntryRead(image, off, e.meta, e.name, e.content, rest);
  }

  ghost predicate Decodes(image: seq<Byte>, off: nat, es: seq<Entry>) {
    Walkable(image, off) && Walked(image, off).Files? && Matches(image, Walked(image, off).files, es)
  }

  lemma DecodesMore(image: seq<Byte>, off: nat, next: nat, f: Found, es: seq<Entry>)
    requires |es| > 0 && Decodes(image, next, es[1..])
    requires Walkable(image, off) && Walked(image, off) == Prepend(f, Walked(image, next))
    requires f.name == es[0].name && f.length == |es[0].content| && f.data + f.length <= |image|
    requires image[f.data..f.data + f.length] == es[0].content
    ensures Decodes(image, off, es)
  {
    MatchesMore(image, f, Walked(image, next).files, es);
  }

  lemma EntryDecodes(image: seq<Byte>, off: nat, es: seq<Entry>, rest: seq<Byte>)
    requires |es| > 0 && GoodEntry(es[0]) && off <= |image|
    requires image[off..] == EncodeEntry(es[0].meta, es[0].name, es[0].content) + rest
    requires off + HEADER <= |image| && 0 <= NextAt(image, off) && Decodes(image, NextAt(image, off), es[1..])
    ensures Decodes(image, off, es)
  {
    EntryWalk(image, off, es[0], rest);
    DecodesMore(image, off, NextAt(image, off), Found(es[0].name, DataAt(image, off), |es[0].content|), es);
  }

  lemma EntryNext(image: seq<Byte>, off: nat, e: Entry, rest: seq<Byte>)
    requires GoodEntry(e) && off <= |image| && image[off..] == EncodeEntry(e.meta, e.name, e.content) + rest
    ensures off + HEADER <= |image| && 0 <= NextAt(image, off) <= |image| && image[NextAt(image, off)..] == rest
  {
    EntryRead(image, off, e.meta, e.name, e.content, rest);
  }

  /** Mounting an encoded archive finds exactly its entries. */
  lemma {:induction false} EncodedWalk(image: seq<Byte>, off: nat, es: seq<Entry>)
    requires AllGood(es) && off <= |image| && image[off..] == Encode(es)
    ensures Decodes(image, off, es)
    decreases |es|
  {
    if |es| == 0 {
      TrailerWalk(image, off);
    } else {
      EntryNext(image, off, es[0], Encode(es[1..]));
      EncodedWalk(image, NextAt(image, off), es[1..]);
      EntryDecodes(image, off, es, Encode(es[1..]));
    }
  }
}
