/**
 * The UCSF file header (180 bytes) and axis headers (128 bytes each):
 * reading them from the file's bytes, recomputing the derived axis fields,
 * and writing them back.
 */
module UcsfHeader {
  import opened Bytes
  import opened Wrappers

  const FileHeaderSize: nat := 180
  const AxisHeaderSize: nat := 128

  /** Latin-1 text as bytes (every character below 256). */
  function Ascii(s: string): (r: seq<byte>)
    requires forall i :: 0 <= i < |s| ==> s[i] as int < 256
    ensures |r| == |s|
    ensures forall i :: 0 <= i < |s| ==> r[i] == s[i] as int
  {
    seq(|s|, i requires 0 <= i < |s| => s[i] as int)
  }

  /** The 8-byte signature at the start of every UCSF file. */
  const Tag: seq<byte> := Ascii("UCSF NMR")

  /** The text the writer puts before the date in the 30-byte comment field. */
  const Stamp: seq<byte> := Ascii("Woonghee's ucsftool ")

  datatype FileHeader =
      /** The header of a closed tool: type and version 'None', counts 0. */
    | Placeholder
    | FileHeader(fileType: seq<byte>, dimCount: byte, dataCompCount: byte, fileVersion: byte)

  /** `read_file_header`: the tag check, then bytes 10, 11 and 13. */
  function ParseFileHeader(data: seq<byte>): Option<FileHeader>
  {
    if |data| < 14 || data[..8] != Tag then None
    else Some(FileHeader(data[..8], data[10], data[11], data[13]))
  }

  /**
   * `write_ucsf_file_header`: the tag padded to 10 bytes, the three counts
   * (with a zero byte between the component count and the version), a
   * 30-byte comment holding the date of writing, and zero padding.
   */
  function EncodeFileHeader(h: FileHeader, date: seq<byte>): seq<byte>
    requires h.FileHeader?
  {
    Pad(Tag, 10) + [h.dimCount] + [h.dataCompCount, 0] + [h.fileVersion]
      + Pad(Stamp + date, 30) + Zeros(128) + Zeros(8)
  }

  /**
   * A written file header is 180 bytes; reading a file that starts with it
   * passes the tag check and returns the same three counts.
   */
  lemma FileHeaderRoundTrip(h: FileHeader, date: seq<byte>, rest: seq<byte>)
    requires h.FileHeader?
    ensures |EncodeFileHeader(h, date)| == FileHeaderSize
    ensures ParseFileHeader(EncodeFileHeader(h, date) + rest)
            == Some(FileHeader(Tag, h.dimCount, h.dataCompCount, h.fileVersion))
  {
    var e := EncodeFileHeader(h, date);
    var d := e + rest;
    assert d[..8] == Pad(Tag, 10)[..8] == Tag;
    assert d[10] == h.dimCount && d[11] == h.dataCompCount && d[13] == h.fileVersion;
  }

  datatype AxisHeader = AxisHeader(
    atomName: seq<byte>,
    dataPointCount: nat,
    tileSize: nat,
    specFreq: Word,
    specWidth: Word,
    center: Word,
    tileCount: nat,
    fillPointCount: nat,
    marginalPoint: int)

  /** The number of tiles along an axis: DataPointCount / TileSize, rounded up. */
  function TileCountFor(dpc: nat, ts: nat): nat
    requires ts > 0
  {
    if dpc % ts != 0 then dpc / ts + 1 else dpc / ts
  }

  /** An axis header whose derived fields are recomputed from the raw ones. */
  function WithDerived(name: seq<byte>, dpc: nat, ts: nat, freq: Word, width: Word, center: Word): AxisHeader
    requires ts > 0
  {
    var tc := TileCountFor(dpc, ts);
    AxisHeader(name, dpc, ts, freq, width, center, tc, ts * tc, ts * tc - dpc)
  }

  predicate DerivedConsistent(h: AxisHeader)
  {
    h.tileSize > 0 && h == WithDerived(h.atomName, h.dataPointCount, h.tileSize, h.specFreq, h.specWidth, h.center)
  }

  /**
   * TileCount is the ceiling of DataPointCount / TileSize, so the fill
   * points cover the data points and the margin is less than one tile.
   */
  lemma DerivedFieldBounds(dpc: nat, ts: nat)
    requires ts > 0
    ensures var h := WithDerived([], dpc, ts, ZeroWord, ZeroWord, ZeroWord);
      && h.fillPointCount == h.tileSize * h.tileCount >= dpc
      && (h.tileCount > 0 ==> (h.tileCount - 1) * ts < dpc)
      && 0 <= h.marginalPoint < ts
      && h.marginalPoint == h.fillPointCount - dpc
  {
    var q, r := dpc / ts, dpc % ts;
    assert dpc == q * ts + r && 0 <= r < ts;
    if r != 0 {
      assert TileCountFor(dpc, ts) == q + 1;
      assert ts * (q + 1) == q * ts + ts;
    } else {
      assert TileCountFor(dpc, ts) == q;
      assert ts * q == q * ts;
      if q > 0 {
        assert (q - 1) * ts == q * ts - ts;
      }
    }
  }

  /** An IEEE-754 single is zero exactly for the words of +0.0 and -0.0. */
  predicate IsFloatZero(w: Word)
  {
    w == [0, 0, 0, 0] || w == [0x80, 0, 0, 0]
  }

  /**
   * `struct.Struct('>f').unpack` idealised as a map from 4-byte words to
   * reals. The only IEEE-754 fact the model relies on is the one the
   * source's division guards depend on: a word decodes to zero exactly when
   * it is +0.0 or -0.0.
   */
  type FloatDecode = f: Word -> real | forall w: Word :: f(w) == 0.0 <==> IsFloatZero(w)
    witness (w: Word) => if IsFloatZero(w) then 0.0 else 1.0

  /**
   * One axis header as `read_axis_header` decodes it. The source gives up
   * (returns 0) when fewer than 32 bytes could be read, when TileSize is 0
   * (integer division by zero), or when DataPointCount or SpecFreq is zero
   * (float division by zero in the MarginalFreq and FreqMin lines).
   */
  function ParseAxisHeader(block: seq<byte>): (r: Option<AxisHeader>)
    ensures r.Some? <==> |block| >= 32 && ReadBeU32(block[16..20]) > 0 && ReadBeU32(block[8..12]) > 0
                         && !IsFloatZero(block[20..24])
    ensures r.Some? ==> DerivedConsistent(r.value) && r.value.dataPointCount > 0 && !IsFloatZero(r.value.specFreq)
  {
    if |block| < 32 then None
    else
      var dpc := ReadBeU32(block[8..12]);
      var ts := ReadBeU32(block[16..20]);
      if ts == 0 || dpc == 0 || IsFloatZero(block[20..24]) then None
      else Some(WithDerived(StripNul(block[..6]), dpc, ts, block[20..24], block[24..28], block[28..32]))
  }

  /** The bytes a 128-byte read at axis header i returns (fewer at end of file). */
  function AxisBlock(data: seq<byte>, i: nat): seq<byte>
  {
    var off := 180 + 128 * i;
    var lo := if off <= |data| then off else |data|;
    var hi := if off + AxisHeaderSize <= |data| then off + AxisHeaderSize else |data|;
    data[lo..hi]
  }

  /** Parse items i, i + 1, ..., n - 1 with f, stopping at the first failure. */
  function ParseFrom<T>(f: nat -> Option<T>, i: nat, n: nat): Option<seq<T>>
    requires i <= n
    decreases n - i
  {
    if i == n then Some([])
    else match f(i)
      case None => None
      case Some(h) =>
        match ParseFrom(f, i + 1, n)
        case None => None
        case Some(rest) => Some([h] + rest)
  }

  /** The header of axis k, if its block decodes. */
  function AxisParser(data: seq<byte>): nat -> Option<AxisHeader>
  {
    (k: nat) => ParseAxisHeader(AxisBlock(data, k))
  }

  /** The headers of axes i up to n. */
  function ParseAxes(data: seq<byte>, i: nat, n: nat): Option<seq<AxisHeader>>
    requires i <= n
  {
    ParseFrom(AxisParser(data), i, n)
  }

  /**
   * `read_axis_header` for DimCount axes; with no axes at all it fails when
   * it looks up the first axis to size the worker bands.
   */
  function ReadAxisHeaders(data: seq<byte>, dimCount: nat): Option<seq<AxisHeader>>
  {
    if dimCount == 0 then None else ParseAxes(data, 0, dimCount)
  }

  /** The parse succeeds exactly when every item from i on parses. */
  lemma {:induction false} ParseFromSome<T>(f: nat -> Option<T>, i: nat, n: nat)
    requires i <= n
    decreases n - i
    ensures ParseFrom(f, i, n).Some? <==> forall k :: i <= k < n ==> f(k).Some?
  {
    if i < n {
      ParseFromSome(f, i + 1, n);
      if f(i).Some? && ParseFrom(f, i + 1, n).None? {
        var k :| i + 1 <= k < n && f(k).None?;
      }
    }
  }

  /** A successful parse holds item k at position k - i. */
  lemma {:induction false} ParseFromValues<T>(f: nat -> Option<T>, i: nat, n: nat)
    requires i <= n && ParseFrom(f, i, n).Some?
    decreases n - i
    ensures var r := ParseFrom(f, i, n).value;
      |r| == n - i && forall k :: i <= k < n ==> f(k) == Some(r[k - i])
  {
    if i < n {
      var tail := ParseFrom(f, i + 1, n).value;
      ParseFromValues(f, i + 1, n);
      var r := ParseFrom(f, i, n).value;
      assert r == [f(i).value] + tail;
      forall k | i < k < n
        ensures f(k) == Some(r[k - i])
      {
        assert r[k - i] == tail[k - (i + 1)];
      }
    }
  }

  /**
   * Reading the axis headers succeeds exactly when there is at least one
   * axis and every one of them decodes; each header then comes from its own
   * 128-byte block and has TileSize and DataPointCount above zero and its
   * derived fields recomputed.
   */
  lemma ReadAxisHeadersSpec(data: seq<byte>, dimCount: nat)
    ensures var r := ReadAxisHeaders(data, dimCount);
      && (r.Some? <==> dimCount > 0 && forall k :: 0 <= k < dimCount ==> ParseAxisHeader(AxisBlock(data, k)).Some?)
      && (r.Some? ==> |r.value| == dimCount
                      && forall k :: 0 <= k < dimCount ==>
                           && ParseAxisHeader(AxisBlock(data, k)) == Some(r.value[k])
                           && DerivedConsistent(r.value[k])
                           && r.value[k].dataPointCount > 0
                           && !IsFloatZero(r.value[k].specFreq))
  {
    ReadAxisHeadersSome(data, dimCount);
    if ReadAxisHeaders(data, dimCount).Some? {
      ReadAxisHeadersValues(data, dimCount);
    }
  }

  lemma ReadAxisHeadersSome(data: seq<byte>, dimCount: nat)
    ensures ReadAxisHeaders(data, dimCount).Some?
      <==> dimCount > 0 && forall k :: 0 <= k < dimCount ==> ParseAxisHeader(AxisBlock(data, k)).Some?
  {
    if dimCount > 0 {
      var f := AxisParser(data);
      ParseFromSome(f, 0, dimCount);
      forall k | 0 <= k < dimCount
        ensures f(k) == ParseAxisHeader(AxisBlock(data, k))
      {
      }
    }
  }

  lemma ReadAxisHeadersValues(data: seq<byte>, dimCount: nat)
    requires ReadAxisHeaders(data, dimCount).Some?
    ensures var r := ReadAxisHeaders(data, dimCount).value;
      && |r| == dimCount
      && forall k :: 0 <= k < dimCount ==> ParseAxisHeader(AxisBlock(data, k)) == Some(r[k])
  {
    var f := AxisParser(data);
    ParseFromValues(f, 0, dimCount);
    var r := ReadAxisHeaders(data, dimCount).value;
    forall k | 0 <= k < dimCount
      ensures ParseAxisHeader(AxisBlock(data, k)) == Some(r[k])
    {
      assert f(k) == Some(r[k - 0]);
    }
  }

  /**
   * `write_ucsf_axis_header`: the name padded to 6 bytes, DataPointCount at
   * offset 8 and TileSize at offset 16 as big-endian 32-bit integers, the
   * three float words at offsets 20, 24 and 28, and zero padding.
   */
  function EncodeAxisHeader(h: AxisHeader): seq<byte>
    requires h.dataPointCount < 0x1_0000_0000 && h.tileSize < 0x1_0000_0000
  {
    Pad(h.atomName, 6) + [0, 0] + BeU32(h.dataPointCount) + [0, 0, 0, 0] + BeU32(h.tileSize)
      + h.specFreq + h.specWidth + h.center + Zeros(96)
  }

  /**
   * A written axis header is 128 bytes. Reading it back gives the same
   * DataPointCount, TileSize and float words, the name as 6 NUL-stripped
   * bytes and freshly derived fields, and it fails exactly when TileSize,
   * DataPointCount or SpecFreq is zero.
   */
  lemma AxisHeaderRoundTrip(h: AxisHeader)
    requires h.dataPointCount < 0x1_0000_0000 && h.tileSize < 0x1_0000_0000
    ensures |EncodeAxisHeader(h)| == AxisHeaderSize
    ensures ParseAxisHeader(EncodeAxisHeader(h))
            == if h.tileSize == 0 || h.dataPointCount == 0 || IsFloatZero(h.specFreq) then None
               else Some(WithDerived(StripNul(Pad(h.atomName, 6)), h.dataPointCount, h.tileSize,
                                     h.specFreq, h.specWidth, h.center))
  {
    var e := EncodeAxisHeader(h);
    assert e[..6] == Pad(h.atomName, 6);
    assert e[8..12] == BeU32(h.dataPointCount);
    assert e[16..20] == BeU32(h.tileSize);
    assert e[20..24] == h.specFreq && e[24..28] == h.specWidth && e[28..32] == h.center;
    BeU32RoundTrip(h.dataPointCount);
    BeU32RoundTrip(h.tileSize);
  }

  /**
   * The full round trip: a consistent header whose name has at most 6 bytes
   * and no NUL is read back unchanged.
   */
  lemma AxisHeaderRoundTripExact(h: AxisHeader)
    requires h.dataPointCount < 0x1_0000_0000 && h.tileSize < 0x1_0000_0000
    requires DerivedConsistent(h) && h.dataPointCount > 0 && !IsFloatZero(h.specFreq)
    requires |h.atomName| <= 6 && 0 !in h.atomName
    ensures ParseAxisHeader(EncodeAxisHeader(h)) == Some(h)
  {
    AxisHeaderRoundTrip(h);
    PadStripRoundTrip(h.atomName, 6);
  }

  /** The axis headers written one after the other. */
  function EncodeAxisHeaders(axes: seq<AxisHeader>): seq<byte>
    requires forall k :: 0 <= k < |axes| ==>
               axes[k].dataPointCount < 0x1_0000_0000 && axes[k].tileSize < 0x1_0000_0000
  {
    if axes == [] then [] else EncodeAxisHeader(axes[0]) + EncodeAxisHeaders(axes[1..])
  }

  lemma {:induction false} EncodeAxisHeadersAt(axes: seq<AxisHeader>, k: nat)
    requires forall j :: 0 <= j < |axes| ==>
               axes[j].dataPointCount < 0x1_0000_0000 && axes[j].tileSize < 0x1_0000_0000
    requires k < |axes|
    ensures |EncodeAxisHeaders(axes)| == 128 * |axes|
    ensures EncodeAxisHeaders(axes)[128 * k..128 * k + AxisHeaderSize]
            == EncodeAxisHeader(axes[k])
  {
    AxisHeaderRoundTrip(axes[0]);
    if |axes| > 1 {
      EncodeAxisHeadersAt(axes[1..], if k > 0 then k - 1 else 0);
    } else {
      assert EncodeAxisHeaders(axes[1..]) == [];
    }
    var e0 := EncodeAxisHeader(axes[0]);
    var tail := EncodeAxisHeaders(axes[1..]);
    assert EncodeAxisHeaders(axes) == e0 + tail;
    if k > 0 {
      assert (e0 + tail)[128 * k..128 * k + AxisHeaderSize]
             == tail[128 * (k - 1)..128 * (k - 1) + AxisHeaderSize];
    }
  }

  /** Axis header k of a file is the k-th 128-byte block after the file header. */
  lemma AxisBlockAt(head: seq<byte>, body: seq<byte>, rest: seq<byte>, k: nat)
    requires |head| == FileHeaderSize && 128 * k + 128 <= |body|
    ensures AxisBlock(head + body + rest, k) == body[128 * k..128 * k + 128]
  {
    var tail := body + rest;
    var file := head + body + rest;
    assert file == head + tail;
    var off := 180 + 128 * k;
    var lo := 128 * k;
    assert tail[lo..lo + 128] == body[lo..lo + 128];
    assert file[off..off + 128] == tail[lo..lo + 128];
  }

  lemma ReadAxesFromRegion(head: seq<byte>, body: seq<byte>, rest: seq<byte>, axes: seq<AxisHeader>)
    requires |head| == FileHeaderSize && |body| == 128 * |axes| && |axes| > 0
    requires forall k :: 0 <= k < |axes| ==> ParseAxisHeader(body[128 * k..128 * k + 128]) == Some(axes[k])
    ensures ReadAxisHeaders(head + body + rest, |axes|) == Some(axes)
  {
    var file := head + body + rest;
    forall k | 0 <= k < |axes|
      ensures ParseAxisHeader(AxisBlock(file, k)) == Some(axes[k])
    {
      AxisBlockAt(head, body, rest, k);
    }
    ReadAxisHeadersSpec(file, |axes|);
    var r := ReadAxisHeaders(file, |axes|);
    assert r.Some?;
    assert |r.value| == |axes|;
    assert forall k :: 0 <= k < |axes| ==> r.value[k] == axes[k];
    assert r.value == axes;
  }

  /**
   * A whole header region written by the writers (file header, then one
   * axis header per dimension, then any data) reads back as the same axes.
   */
  lemma HeaderRegionRoundTrip(fh: FileHeader, date: seq<byte>, axes: seq<AxisHeader>, rest: seq<byte>)
    requires fh.FileHeader? && fh.dimCount as int == |axes| > 0
    requires forall k :: 0 <= k < |axes| ==>
               && axes[k].dataPointCount < 0x1_0000_0000 && axes[k].tileSize < 0x1_0000_0000
               && DerivedConsistent(axes[k]) && axes[k].dataPointCount > 0 && !IsFloatZero(axes[k].specFreq)
               && |axes[k].atomName| <= 6 && 0 !in axes[k].atomName
    ensures var file := EncodeFileHeader(fh, date) + EncodeAxisHeaders(axes) + rest;
      && ParseFileHeader(file) == Some(FileHeader(Tag, fh.dimCount, fh.dataCompCount, fh.fileVersion))
      && ReadAxisHeaders(file, fh.dimCount as int) == Some(axes)
  {
    var head := EncodeFileHeader(fh, date);
    var body := EncodeAxisHeaders(axes);
    FileHeaderRoundTrip(fh, date, body + rest);
    assert head + body + rest == head + (body + rest);
    EncodeAxisHeadersAt(axes, 0);
    forall k | 0 <= k < |axes|
      ensures ParseAxisHeader(body[128 * k..128 * k + 128]) == Some(axes[k])
    {
      EncodeAxisHeadersAt(axes, k);
      AxisHeaderRoundTripExact(axes[k]);
    }
    ReadAxesFromRegion(head, body, rest, axes);
  }
}
