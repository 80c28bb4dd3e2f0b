/**
 * The memory image: the serializer at the end of finish (linker.py:143-152)
 * and the parseImage decoder of the generated loader (linker.py:160-180).
 *
 * An image is the 24 ASCII bytes "CalderalinkerMemoryImage" followed by one
 * block per section, in ascending base order: a type byte, the base and the
 * length as 32-bit little-endian words, and for type 1 the section's bytes.
 * A section whose bytes are all zero (an empty one included) is a type-0
 * block without payload.
 */
module Image {
  import opened Bytes

  /** A section as the serializer sees it: its base and its bytes. */
  datatype Block = Block(base: int, mem: seq<Byte>)

  /** The ASCII codes of the characters of a string. */
  function Ascii(s: string): (r: seq<Byte>)
    requires forall i :: 0 <= i < |s| ==> s[i] as int < 0x80
    ensures |r| == |s| && forall i :: 0 <= i < |s| ==> r[i] == s[i] as int
  {
    seq(|s|, i requires 0 <= i < |s| => s[i] as int)
  }

  const MAGIC_TEXT: string := "CalderalinkerMemoryImage"

  const MAGIC: seq<Byte> := [0x43, 0x61, 0x6c, 0x64, 0x65, 0x72, 0x61, 0x6c, 0x69, 0x6e, 0x6b, 0x65,
                             0x72, 0x4d, 0x65, 0x6d, 0x6f, 0x72, 0x79, 0x49, 0x6d, 0x61, 0x67, 0x65]

  /** The magic is the ASCII encoding of its text, 24 bytes long. */
  lemma MagicIsAscii()
    ensures |MAGIC| == 24 && MAGIC == Ascii(MAGIC_TEXT)
  {
  }

  /** pack('<BII', ...) accepts the base and the length. */
  predicate Packable(b: Block)
  {
    0 <= b.base < U32_LIMIT && |b.mem| < U32_LIMIT
  }

  predicate AllPackable(bs: seq<Block>)
  {
    forall i :: 0 <= i < |bs| ==> Packable(bs[i])
  }

  const ZERO_FILL: Byte := 0
  const DATA: Byte := 1

  /** pack('<BII', t, base, len): the type byte, then the base and the length
      as 32-bit little-endian words. */
  function Header(t: Byte, base: int, len: int): (h: seq<Byte>)
    requires 0 <= base < U32_LIMIT && 0 <= len < U32_LIMIT
    ensures |h| == 9 && h[0] == t && h[1..5] == LE32(base) && h[5..9] == LE32(len)
  {
    [t] + LE32(base) + LE32(len)
  }

  /** The block of one section: a zero fill when all its bytes are zero,
      otherwise the header followed by the bytes. */
  function EncodeBlock(b: Block): seq<Byte>
    requires Packable(b)
  {
    if AllZero(b.mem) then Header(ZERO_FILL, b.base, |b.mem|)
    else Header(DATA, b.base, |b.mem|) + b.mem
  }

  /** An all-zero section, an empty one included, is a bare 9-byte header
      of type 0; any other is a type-1 header followed by its bytes. Either
      way the header carries the base and the section's length. */
  lemma EncodeBlockShape(b: Block)
    requires Packable(b)
    ensures var e := EncodeBlock(b);
      && |e| >= 9 && e[1..5] == LE32(b.base) && e[5..9] == LE32(|b.mem|)
      && (AllZero(b.mem) <==> e[0] == ZERO_FILL)
      && (AllZero(b.mem) ==> |e| == 9)
      && (!AllZero(b.mem) ==> e[0] == DATA && e[9..] == b.mem)
  {
    var e := EncodeBlock(b);
    if !AllZero(b.mem) {
      assert e[..9] == Header(DATA, b.base, |b.mem|);
    }
  }

  /** The pieces one after the other. */
  function Flatten(pieces: seq<seq<Byte>>): seq<Byte>
  {
    if pieces == [] then [] else pieces[0] + Flatten(pieces[1..])
  }

  lemma {:induction false} FlattenAppend(pieces: seq<seq<Byte>>, p: seq<Byte>)
    ensures Flatten(pieces + [p]) == Flatten(pieces) + p
  {
    if pieces == [] {
      assert [p][1..] == [];
    } else {
      assert (pieces + [p])[1..] == pieces[1..] + [p];
      FlattenAppend(pieces[1..], p);
    }
  }

  /** The block of each section. */
  function Blocks(bs: seq<Block>): (r: seq<seq<Byte>>)
    requires AllPackable(bs)
    ensures |r| == |bs| && forall i :: 0 <= i < |bs| ==> r[i] == EncodeBlock(bs[i])
  {
    seq(|bs|, i requires 0 <= i < |bs| => EncodeBlock(bs[i]))
  }

  /** The blocks of the sections, in the order given. */
  function EncodeBlocks(bs: seq<Block>): seq<Byte>
    requires AllPackable(bs)
  {
    Flatten(Blocks(bs))
  }

  lemma BlocksAppend(bs: seq<Block>, b: Block)
    requires AllPackable(bs) && Packable(b)
    ensures AllPackable(bs + [b]) && Blocks(bs + [b]) == Blocks(bs) + [EncodeBlock(b)]
  {
    assert AllPackable(bs + [b]) by {
      forall i | 0 <= i < |bs| + 1 ensures Packable((bs + [b])[i]) {
        if i < |bs| { assert (bs + [b])[i] == bs[i]; }
      }
    }
  }

  lemma BlocksTail(bs: seq<Block>)
    requires AllPackable(bs) && bs != []
    ensures AllPackable(bs[1..]) && Blocks(bs)[1..] == Blocks(bs[1..])
  {
  }

  /** The loop of finish: the magic, then one block per section. */
  method Serialize(sections: seq<Block>) returns (image: seq<Byte>)
    requires AllPackable(sections)
    ensures image == MAGIC + EncodeBlocks(sections)
  {
    image := MAGIC;
    var i := 0;
    assert sections[..0] == [];
    while i < |sections|
      invariant 0 <= i <= |sections|
      invariant image == MAGIC + EncodeBlocks(sections[..i])
    {
      var section := sections[i];
      var block;
      if AllZero(section.mem) {
        block := Header(ZERO_FILL, section.base, |section.mem|);
      } else {
        block := Header(DATA, section.base, |section.mem|) + section.mem;
      }
      assert sections[..i + 1] == sections[..i] + [section];
      AppendBlock(MAGIC, sections[..i], section, block);
      image := image + block;
      i := i + 1;
    }
    assert sections[..i] == sections;
  }

  /** One more block after the blocks so far. */
  lemma AppendBlock(pre: seq<Byte>, bs: seq<Block>, b: Block, block: seq<Byte>)
    requires AllPackable(bs) && Packable(b) && block == EncodeBlock(b)
    ensures AllPackable(bs + [b]) && pre + EncodeBlocks(bs) + block == pre + EncodeBlocks(bs + [b])
  {
    BlocksAppend(bs, b);
    FlattenAppend(Blocks(bs), block);
  }

  // ---------------------------------------------------------------------
  // The order of the sections: sorted(..., key=lambda e: e.base)

  /** Inserting a section after every section whose base is not larger. */
  function Insert(s: seq<Block>, b: Block): seq<Block>
  {
    if s == [] then [b]
    else if s[|s| - 1].base <= b.base then s + [b]
    else Insert(s[..|s| - 1], b) + [s[|s| - 1]]
  }

  /** A stable sort by base. */
  function SortByBase(bs: seq<Block>): seq<Block>
  {
    if bs == [] then []
    else Insert(SortByBase(bs[..|bs| - 1]), bs[|bs| - 1])
  }

  predicate SortedByBase(s: seq<Block>)
  {
    forall i, j :: 0 <= i < j < |s| ==> s[i].base <= s[j].base
  }

  /** The sections with one base, in their order. */
  function WithBase(s: seq<Block>, x: int): seq<Block>
  {
    if s == [] then []
    else WithBase(s[..|s| - 1], x) + (if s[|s| - 1].base == x then [s[|s| - 1]] else [])
  }

  lemma {:induction false} WithBaseAppend(s: seq<Block>, t: seq<Block>, x: int)
    ensures WithBase(s + t, x) == WithBase(s, x) + WithBase(t, x)
  {
    if t != [] {
      var n := |t| - 1;
      assert (s + t)[..|s + t| - 1] == s + t[..n];
      WithBaseAppend(s, t[..n], x);
    } else {
      assert s + t == s;
    }
  }

  /** Inserting adds the section to the multiset of sections. */
  lemma {:induction false} InsertPermutes(s: seq<Block>, b: Block)
    ensures multiset(Insert(s, b)) == multiset(s) + multiset{b}
  {
    if s != [] && s[|s| - 1].base > b.base {
      var n := |s| - 1;
      InsertPermutes(s[..n], b);
      assert s == s[..n] + [s[n]];
    }
  }

  /** Inserting into a sorted order keeps it sorted. */
  lemma {:induction false} InsertSorted(s: seq<Block>, b: Block)
    requires SortedByBase(s)
    ensures SortedByBase(Insert(s, b))
  {
    if s != [] && s[|s| - 1].base > b.base {
      var n := |s| - 1;
      var init, last := s[..n], s[n];
      InsertSorted(init, b);
      InsertPermutes(init, b);
      var r := Insert(init, b);
      forall i, j | 0 <= i < j < |r| + 1
        ensures (r + [last])[i].base <= (r + [last])[j].base
      {
        if j == |r| {
          assert r[i] in multiset(init) + multiset{b};
          if r[i] != b {
            assert r[i] in init;
          }
        }
      }
    }
  }

  /** Inserting puts the section after every section with its base. */
  lemma {:induction false} InsertStable(s: seq<Block>, b: Block, x: int)
    ensures WithBase(Insert(s, b), x) == WithBase(s, x) + (if b.base == x then [b] else [])
  {
    if s == [] {
      assert WithBase([b], x) == WithBase([], x) + (if b.base == x then [b] else []);
    } else {
      var n := |s| - 1;
      var init, last := s[..n], s[n];
      if last.base <= b.base {
        assert (s + [b])[..|s|] == s;
        if last.base == x && b.base == x {
        }
      } else {
        InsertStable(init, b, x);
        var r := Insert(init, b);
        assert (r + [last])[..|r|] == r;
      }
    }
  }

  /** The sort orders by base. */
  lemma {:induction false} SortByBaseSorted(bs: seq<Block>)
    ensures SortedByBase(SortByBase(bs))
  {
    if bs != [] {
      var n := |bs| - 1;
      SortByBaseSorted(bs[..n]);
      InsertSorted(SortByBase(bs[..n]), bs[n]);
    }
  }

  /** The sort keeps every section. */
  lemma {:induction false} SortByBasePermutes(bs: seq<Block>)
    ensures multiset(SortByBase(bs)) == multiset(bs)
  {
    if bs != [] {
      var n := |bs| - 1;
      SortByBasePermutes(bs[..n]);
      InsertPermutes(SortByBase(bs[..n]), bs[n]);
      MultisetOfLast(bs);
    }
  }

  lemma MultisetOfLast(s: seq<Block>)
    requires s != []
    ensures multiset(s) == multiset(s[..|s| - 1]) + multiset{s[|s| - 1]}
  {
    assert s == s[..|s| - 1] + [s[|s| - 1]];
  }

  /** Sorting keeps the sections packable. */
  lemma SortByBasePackable(bs: seq<Block>)
    requires AllPackable(bs)
    ensures AllPackable(SortByBase(bs))
  {
    var s := SortByBase(bs);
    SortByBasePermutes(bs);
    forall i | 0 <= i < |s|
      ensures Packable(s[i])
    {
      assert s[i] in multiset(bs);
    }
  }

  /** The sort keeps the relative order of the sections with one base. */
  lemma {:induction false} SortByBaseStable(bs: seq<Block>, x: int)
    ensures WithBase(SortByBase(bs), x) == WithBase(bs, x)
  {
    if bs != [] {
      var n := |bs| - 1;
      SortByBaseStable(bs[..n], x);
      InsertStable(SortByBase(bs[..n]), bs[n], x);
    }
  }

  // ---------------------------------------------------------------------
  // parseImage

  /** An entry of the decoded image: a zero fill or a block of bytes. */
  datatype Entry = Fill(start: nat, length: nat) | Data(start: nat, bytes: seq<Byte>)

  /** The decoded image, or the RangeError a truncated header raises. */
  datatype Parsed = Parsed(entries: seq<Entry>) | RangeError

  function Prepend(e: Entry, p: Parsed): Parsed
  {
    match p
    case Parsed(es) => Parsed([e] + es)
    case RangeError => RangeError
  }

  function Append(es: seq<Entry>, p: Parsed): Parsed
  {
    match p
    case Parsed(rest) => Parsed(es + rest)
    case RangeError => RangeError
  }

  lemma AppendPrepend(es: seq<Entry>, e: Entry, p: Parsed)
    ensures Append(es, Prepend(e, p)) == Append(es + [e], p)
  {
    if p.Parsed? {
      assert es + ([e] + p.entries) == (es + [e]) + p.entries;
    }
  }

  /** The loop of parseImage from a cursor on. getUint32 throws past the
      end; subarray clamps to the end; a block of another type is skipped
      without its payload. */
  function ParseFrom(data: seq<Byte>, cursor: nat): Parsed
    decreases if cursor <= |data| then |data| - cursor else 0
  {
    if cursor >= |data| then Parsed([])
    else
      var blockType := data[cursor];
      var c := cursor + 1;
      if c + 4 > |data| then RangeError
      else
        var start := FromLE(data[c..c + 4]);
        if c + 8 > |data| then RangeError
        else
          var length := FromLE(data[c + 4..c + 8]);
          var next := c + 8;
          if blockType == 0 then Prepend(Fill(start, length), ParseFrom(data, next))
          else if blockType == 1 then
            var end := if next + length <= |data| then next + length else |data|;
            Prepend(Data(start, data[next..end]), ParseFrom(data, next + length))
          else ParseFrom(data, next)
  }

  /** parseImage. */
  method ParseImage(data: seq<Byte>) returns (r: Parsed)
    ensures r == ParseFrom(data, 24)
  {
    var image: seq<Entry> := [];
    var cursor := 24;
    while cursor < |data|
      invariant ParseFrom(data, 24) == Append(image, ParseFrom(data, cursor))
      decreases |data| - cursor
    {
      ghost var at := cursor;
      var blockType := data[cursor];
      cursor := cursor + 1;
      if cursor + 4 > |data| {
        return RangeError;
      }
      var start := FromLE(data[cursor..cursor + 4]);
      cursor := cursor + 4;
      if cursor + 4 > |data| {
        return RangeError;
      }
      var length := FromLE(data[cursor..cursor + 4]);
      cursor := cursor + 4;
      if blockType == 0 {
        assert ParseFrom(data, at) == Prepend(Fill(start, length), ParseFrom(data, cursor));
        AppendPrepend(image, Fill(start, length), ParseFrom(data, cursor));
        image := image + [Fill(start, length)];
      } else if blockType == 1 {
        var end := if cursor + length <= |data| then cursor + length else |data|;
        var block := data[cursor..end];
        cursor := cursor + length;
        assert ParseFrom(data, at) == Prepend(Data(start, block), ParseFrom(data, cursor));
        AppendPrepend(image, Data(start, block), ParseFrom(data, cursor));
        image := image + [Data(start, block)];
      } else {
        assert ParseFrom(data, at) == ParseFrom(data, cursor);
      }
    }
    r := Parsed(image);
  }

  /** The entry a section decodes to. */
  function EntryOf(b: Block): Entry
    requires Packable(b)
  {
    if AllZero(b.mem) then Fill(b.base, |b.mem|) else Data(b.base, b.mem)
  }

  function Entries(bs: seq<Block>): (es: seq<Entry>)
    requires AllPackable(bs)
    ensures |es| == |bs| && forall i :: 0 <= i < |bs| ==> es[i] == EntryOf(bs[i])
  {
    seq(|bs|, i requires 0 <= i < |bs| => EntryOf(bs[i]))
  }

  /** Decoding the blocks that follow any prefix gives one entry per section, in order. */
  lemma {:induction false} DecodeBlocks(pre: seq<Byte>, bs: seq<Block>)
    requires AllPackable(bs)
    ensures ParseFrom(pre + EncodeBlocks(bs), |pre|) == Parsed(Entries(bs))
    decreases |bs|
  {
    if bs == [] {
      assert pre + EncodeBlocks(bs) == pre;
    } else {
      BlocksTail(bs);
      var b := bs[0];
      var blk := EncodeBlock(b);
      var data := pre + EncodeBlocks(bs);
      assert data == (pre + blk) + EncodeBlocks(bs[1..]);
      DecodeBlocks(pre + blk, bs[1..]);
      DecodeOneBlock(pre, b, EncodeBlocks(bs[1..]));
      assert Entries(bs) == [EntryOf(b)] + Entries(bs[1..]);
    }
  }

  /** One block read at its start: its entry, then what follows it. */
  lemma DecodeOneBlock(pre: seq<Byte>, b: Block, rest: seq<Byte>)
    requires Packable(b)
    ensures ParseFrom(pre + EncodeBlock(b) + rest, |pre|)
         == Prepend(EntryOf(b), ParseFrom(pre + EncodeBlock(b) + rest, |pre| + |EncodeBlock(b)|))
  {
    var blk := EncodeBlock(b);
    SliceInside(pre, blk, rest, 0, |blk|);
    DecodeBlockOf(pre + blk + rest, |pre|, b);
  }

  /** The block of a section read where it sits in the data. */
  lemma DecodeBlockOf(data: seq<Byte>, p: nat, b: Block)
    requires Packable(b) && p + |EncodeBlock(b)| <= |data| && data[p..p + |EncodeBlock(b)|] == EncodeBlock(b)
    ensures ParseFrom(data, p) == Prepend(EntryOf(b), ParseFrom(data, p + |EncodeBlock(b)|))
  {
    var blk := EncodeBlock(b);
    if AllZero(b.mem) {
      assert blk + [] == blk;
      DecodeBlockAt(data, p, blk, [], ZERO_FILL, b.base, |b.mem|);
    } else {
      DecodeBlockAt(data, p, Header(DATA, b.base, |b.mem|), b.mem, DATA, b.base, |b.mem|);
    }
  }

  /** A header and its payload read where they sit in the data. */
  lemma DecodeBlockAt(data: seq<Byte>, p: nat, h: seq<Byte>, payload: seq<Byte>, t: Byte, base: int, len: int)
    requires t <= 1 && 0 <= base < U32_LIMIT && 0 <= len < U32_LIMIT && h == Header(t, base, len)
    requires if t == 0 then payload == [] else |payload| == len
    requires p + |h + payload| <= |data| && data[p..p + |h + payload|] == h + payload
    ensures ParseFrom(data, p) == Prepend(if t == 0 then Fill(base, len) else Data(base, payload),
                                          ParseFrom(data, p + |h + payload|))
  {
    var blk := h + payload;
    var q := p + |blk|;
    assert blk[..9] == h;
    SliceOfSlice(data, p, q, 0, 1);
    assert data[p] == t by { assert data[p..p + 1] == blk[0..1] == h[0..1]; }
    SliceOfSlice(data, p, q, 1, 5);
    assert data[p + 1..p + 5] == LE32(base) by { assert blk[1..5] == h[1..5]; }
    SliceOfSlice(data, p, q, 5, 9);
    assert data[p + 5..p + 9] == LE32(len) by { assert blk[5..9] == h[5..9]; }
    ParseHeader(data, p, t, base, len);
    if t == 1 {
      SliceOfSlice(data, p, q, 9, |blk|);
      assert blk[9..] == payload;
    }
  }

  /** A slice of a slice is a slice of the whole. */
  lemma SliceOfSlice(data: seq<Byte>, p: nat, q: nat, i: nat, j: nat)
    requires p <= q <= |data| && i <= j <= q - p
    ensures data[p..q][i..j] == data[p + i..p + j]
  {
    assert forall k :: 0 <= k < j - i ==> data[p..q][i..j][k] == data[p + i..p + j][k];
  }

  /** parseImage at a cursor where a zero-fill or data header starts. */
  lemma ParseHeader(data: seq<Byte>, p: nat, t: Byte, base: int, len: int)
    requires p + 9 <= |data| && t <= 1 && 0 <= base < U32_LIMIT && 0 <= len < U32_LIMIT
    requires data[p] == t && data[p + 1..p + 5] == LE32(base) && data[p + 5..p + 9] == LE32(len)
    ensures t == 0 ==> ParseFrom(data, p) == Prepend(Fill(base, len), ParseFrom(data, p + 9))
    ensures t == 1 && p + 9 + len <= |data| ==>
      ParseFrom(data, p) == Prepend(Data(base, data[p + 9..p + 9 + len]), ParseFrom(data, p + 9 + len))
  {
  }

  /** A slice of the middle part of a concatenation. */
  lemma SliceInside(pre: seq<Byte>, x: seq<Byte>, rest: seq<Byte>, i: nat, j: nat)
    requires i <= j <= |x|
    ensures (pre + x + rest)[|pre| + i..|pre| + j] == x[i..j]
  {
  }

  /** parseImage on a serialized image recovers the sections' entries in order. */
  lemma RoundTrip(bs: seq<Block>)
    requires AllPackable(bs)
    ensures ParseFrom(MAGIC + EncodeBlocks(bs), 24) == Parsed(Entries(bs))
  {
    DecodeBlocks(MAGIC, bs);
  }
}
