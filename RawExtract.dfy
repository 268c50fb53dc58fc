/** The raw pixel extractor of image-to-binary.py (lines 115-125): it reads the `.bmp`
    that PIL has just written and copies its pixel bytes into a headerless `.raw`
    file, dropping every fourth byte when the alpha channel is not wanted. */
module RawExtract {
  import opened PyIo

  /** The pixel-array offset as line 116 reads it: `int.from_bytes` of the one byte at
      index 10, which is only the low byte of the little-endian 32-bit bfOffBits field
      of BITMAPFILEHEADER. A file that ends before index 10 gives `b''`, read as 0. */
  function OffsetByte(file: seq<byte>): nat
  {
    if |file| > 10 then file[10] as nat else 0
  }

  /** The bytes of `s` whose 0-based position is not 3 modulo 4, in order: what the
      no-alpha byte counter lets through. */
  function KeptBytes(s: seq<byte>): seq<byte>
  {
    if s == [] then []
    else KeptBytes(s[..|s| - 1]) + (if (|s| - 1) % 4 == 3 then [] else [s[|s| - 1]])
  }

  /** Appending one byte to the walked bytes keeps it unless its position is 3 mod 4. */
  lemma KeptBytesSnoc(s: seq<byte>, b: byte)
    ensures KeptBytes(s + [b]) == KeptBytes(s) + (if |s| % 4 == 3 then [] else [b])
  {
    assert (s + [b])[..|s|] == s;
  }

  /** A quarter of the walked bytes, rounded down, is dropped. */
  lemma {:induction false} KeptBytesLength(s: seq<byte>)
    ensures |KeptBytes(s)| == |s| - |s| / 4
  {
    if s != [] {
      KeptBytesLength(s[..|s| - 1]);
      CounterStep(|s| - 1);
    }
  }

  /** The j-th kept byte is the walked byte at position j + j / 3: the three bytes of
      each group of four that are not at position 3 mod 4, in their original order. */
  lemma {:induction false} KeptBytesAt(s: seq<byte>, j: nat)
    requires j < |KeptBytes(s)|
    ensures j + j / 3 < |s| && (j + j / 3) % 4 != 3
    ensures KeptBytes(s)[j] == s[j + j / 3]
  {
    var t := s[..|s| - 1];
    KeptBytesLength(t);
    if j < |KeptBytes(t)| {
      KeptBytesAt(t, j);
    } else {
      var m, q, r := |t|, |t| / 4, |t| % 4;
      assert m == 4 * q + r && r < 3;
      assert j == 3 * q + r;
      assert j / 3 == q;
    }
  }

  /** Conversely, every walked byte at a position other than 3 mod 4 is kept, at the
      place given by the number of bytes before it that were kept. */
  lemma {:induction false} KeptBytesHas(s: seq<byte>, i: nat)
    requires i < |s| && i % 4 != 3
    ensures i - i / 4 < |KeptBytes(s)| && KeptBytes(s)[i - i / 4] == s[i]
  {
    var t := s[..|s| - 1];
    KeptBytesLength(t);
    if i < |t| {
      KeptBytesHas(t, i);
    }
  }

  /** What the copy loop writes for the pixel bytes `s`. */
  function Thinned(s: seq<byte>, noAlpha: bool): seq<byte>
  {
    if noAlpha then KeptBytes(s) else s
  }

  /** One more walked byte extends the output by that byte, unless the counter drops it. */
  lemma ThinnedStep(file: seq<byte>, start: nat, pos: nat, noAlpha: bool)
    requires start <= pos < |file|
    ensures Thinned(file[start..pos + 1], noAlpha) ==
      Thinned(file[start..pos], noAlpha) + (if noAlpha && (pos - start) % 4 == 3 then [] else [file[pos]])
  {
    var walked := file[start..pos];
    assert file[start..pos + 1] == walked + [file[pos]];
    if noAlpha {
      KeptBytesSnoc(walked, file[pos]);
    }
  }

  /** The pixel region the copy loop walks: the bytes from the offset on, when the
      header skip at line 117 leaves something to read and is not `read(0)`. */
  function PixelRegion(file: seq<byte>): seq<byte>
  {
    var off := OffsetByte(file);
    if 11 < off < |file| then file[off..] else []
  }

  /** The outcome of lines 115-125 on the BMP bytes `file`: Ok with the bytes written
      to the `.raw` file, or the ValueError that `read(off - 11)` raises when the offset
      byte is below 10 (the `.raw` file is then left empty). */
  function Extract(file: seq<byte>, noAlpha: bool): Result<seq<byte>>
  {
    if OffsetByte(file) < 10 then Err(NegativeReadLength)
    else Ok(Thinned(PixelRegion(file), noAlpha))
  }

  /** What the `.raw` file holds afterwards, whether or not the read raised. */
  function RawContents(r: Result<seq<byte>>): seq<byte>
  {
    if r.Ok? then r.value else []
  }

  /** The read at line 117 raises exactly when the offset byte is below 10 (a file of
      ten bytes or fewer included, whose offset reads as 0); an offset of 10 or 11, or a
      file that ends at index 11, leaves the `.raw` file empty. */
  lemma ExtractEmpty(file: seq<byte>, noAlpha: bool)
    ensures Extract(file, noAlpha).Err? <==> OffsetByte(file) < 10
    ensures OffsetByte(file) <= 11 || |file| <= 11 ==> RawContents(Extract(file, noAlpha)) == []
  {
  }

  /** With `-a`, the `.raw` file is the pixel region byte for byte: the file from its
      offset on, when that offset is past the 11 bytes the header reads consume. */
  lemma ExtractWithAlpha(file: seq<byte>)
    requires 11 < OffsetByte(file) < |file|
    ensures Extract(file, false) == Ok(file[OffsetByte(file)..])
  {
  }

  /** Without alpha, output byte j is the file byte at off + j + j / 3: it lies in the
      pixel region, never in the header, and its position there is not 3 mod 4. */
  lemma ExtractNoAlphaAt(file: seq<byte>, j: nat)
    requires j < |RawContents(Extract(file, true))|
    ensures 11 < OffsetByte(file) && OffsetByte(file) + j + j / 3 < |file|
    ensures (j + j / 3) % 4 != 3
    ensures RawContents(Extract(file, true))[j] == file[OffsetByte(file) + j + j / 3]
  {
    KeptBytesAt(PixelRegion(file), j);
  }

  /** Without alpha, every pixel-region byte whose position in the region is not 3 mod 4
      appears in the output, in order. */
  lemma ExtractNoAlphaHas(file: seq<byte>, i: nat)
    requires 11 < OffsetByte(file) <= i < |file| && (i - OffsetByte(file)) % 4 != 3
    ensures var k := i - OffsetByte(file);
      k - k / 4 < |RawContents(Extract(file, true))| &&
      RawContents(Extract(file, true))[k - k / 4] == file[i]
  {
    KeptBytesHas(PixelRegion(file), i - OffsetByte(file));
  }

  /** The `.raw` file holds n - n / 4 bytes without alpha and n bytes with it, where n
      is the length of the pixel region. */
  lemma ExtractLength(file: seq<byte>, noAlpha: bool)
    ensures var n := |PixelRegion(file)|;
      |RawContents(Extract(file, noAlpha))| == if noAlpha then n - n / 4 else n
  {
    KeptBytesLength(PixelRegion(file));
  }

  /** The output depends on the header only through its length and its byte 10: two
      files that agree on those and on every byte from the offset on give the same. */
  lemma ExtractIgnoresHeader(file: seq<byte>, other: seq<byte>, noAlpha: bool)
    requires |file| == |other| && OffsetByte(file) == OffsetByte(other)
    requires forall i :: OffsetByte(file) <= i < |file| ==> file[i] == other[i]
    ensures Extract(file, noAlpha) == Extract(other, noAlpha)
  {
    var off := OffsetByte(file);
    if 11 < off < |file| {
      assert file[off..] == other[off..];
    }
  }

  /** Lines 115-117: discard 10 bytes, read the offset byte, discard `off - 11` more.
      Returns what the last read gave (the loop's first `byte`). */
  method SkipHeader(bmp: Reader) returns (r: Result<seq<byte>>)
    requires bmp.Valid() && bmp.pos == 0
    modifies bmp
    ensures bmp.Valid()
    ensures r.Err? <==> OffsetByte(bmp.data) < 10
    ensures r.Ok? && OffsetByte(bmp.data) > 11 ==> bmp.pos == Min(OffsetByte(bmp.data), |bmp.data|)
    ensures r.Ok? && OffsetByte(bmp.data) == 10 ==> bmp.pos == |bmp.data|
    ensures r.Ok? && OffsetByte(bmp.data) == 11 ==> r.value == []
    ensures r.Ok? ==> (r.value == [] <==> OffsetByte(bmp.data) == 11 || |bmp.data| <= 11)
    ensures bmp.pos == (if OffsetByte(bmp.data) < 10 then Min(11, |bmp.data|)
                        else if OffsetByte(bmp.data) == 10 then |bmp.data|
                        else Min(OffsetByte(bmp.data), |bmp.data|))
    ensures r.Ok? ==> r.value == bmp.data[Min(11, |bmp.data|)..bmp.pos]
  {
    var discarded := bmp.Read(10);
    var offsetBytes := bmp.Read(1);
    var off := if offsetBytes.value == [] then 0 else offsetBytes.value[0] as int;
    assert off == OffsetByte(bmp.data);
    r := bmp.Read(off - 11);
  }

  /** The counter after k + 1 bytes follows from the counter after k: it wraps from 3 to 0. */
  lemma CounterStep(k: nat)
    ensures k % 4 == 3 ==> (k + 1) % 4 == 0 && (k + 1) / 4 == k / 4 + 1
    ensures k % 4 != 3 ==> (k + 1) % 4 == k % 4 + 1 && (k + 1) / 4 == k / 4
  {
  }

  /** Lines 118-125: while the last read gave bytes, read one more; write it unless
      `no_alpha` is set and the counter has reached 3, which resets the counter instead.
      The final read at end of file gives `b''`, and writing that changes nothing. */
  method CopyPixels(bmp: Reader, raw: Writer, first: seq<byte>, noAlpha: bool)
    requires bmp.Valid() && raw.written == []
    modifies bmp`pos, raw
    ensures bmp.Valid()
    ensures first == [] ==> raw.written == [] && bmp.pos == old(bmp.pos)
    ensures first != [] ==> bmp.pos == |bmp.data|
    ensures first != [] ==> raw.written == Thinned(bmp.data[old(bmp.pos)..], noAlpha)
  {
    ghost var start := bmp.pos;
    var byte := first;
    var byteCounter := 0;
    while byte != []
      invariant bmp.Valid() && start <= bmp.pos
      invariant byte == [] ==> bmp.pos == |bmp.data| || first == []
      invariant first == [] ==> bmp.pos == start
      invariant raw.written == Thinned(bmp.data[start..bmp.pos], noAlpha)
      invariant noAlpha ==> 0 <= byteCounter <= 3
      invariant byte != [] ==> byteCounter == if noAlpha then (bmp.pos - start) % 4 else bmp.pos - start
      decreases |bmp.data| - bmp.pos, if byte == [] then 0 else 1
    {
      ghost var pos, written := bmp.pos, raw.written;
      ghost var dropped := noAlpha && (pos - start) % 4 == 3;
      CounterStep(pos - start);
      var next := bmp.Read(1);
      byte := next.value;
      assert pos < |bmp.data| ==> bmp.pos == pos + 1 && byte == [bmp.data[pos]];
      assert pos == |bmp.data| ==> bmp.pos == pos && byte == [];
      if noAlpha && byteCounter == 3 {
        byteCounter := 0;
      } else {
        raw.Write(byte);
        byteCounter := byteCounter + 1;
      }
      assert raw.written == written + (if dropped then [] else byte);
      if byte != [] {
        ThinnedStep(bmp.data, start, pos, noAlpha);
        assert Thinned(bmp.data[start..bmp.pos], noAlpha) == written + (if dropped then [] else byte);
      }
    }
    if first != [] {
      assert bmp.data[start..bmp.pos] == bmp.data[start..];
    }
  }

  /** Lines 115-125 with the input cursor and the byte counter. The result is the
      bytes written to the `.raw` file, or the exception that ends the run. */
  method ExtractRaw(file: seq<byte>, noAlpha: bool) returns (r: Result<seq<byte>>)
    ensures r == Extract(file, noAlpha)
  {
    var bmp := new Reader.Open(file);
    var raw := new Writer.Create();
    var header := SkipHeader(bmp);
    if header.Err? {
      return Err(header.error);
    }
    ghost var start := bmp.pos;
    CopyPixels(bmp, raw, header.value, noAlpha);
    if header.value != [] {
      assert start == if 11 < OffsetByte(file) < |file| then OffsetByte(file) else |file|;
      assert file[start..] == PixelRegion(file);
    }
    r := Ok(raw.written);
  }
}
