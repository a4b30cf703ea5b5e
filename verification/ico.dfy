/** The Windows icon container written by the icon converter: a 6-byte
    ICONDIR header, one 16-byte ICONDIRENTRY per image, then the PNG
    payloads in entry order. All fields are little-endian. */
module Ico {

  type byte = x: int | 0 <= x < 256

  const TWO16: nat := 0x1_0000
  const TWO32: nat := 0x1_0000_0000

  /** `(n as u16).to_le_bytes()`: the low 16 bits, low byte first. */
  function LE16(n: nat): (r: seq<byte>)
    ensures |r| == 2
  {
    [n % 256, (n / 256) % 256]
  }

  /** `(n as u32).to_le_bytes()`: the low 32 bits, low byte first. */
  function LE32(n: nat): (r: seq<byte>)
    ensures |r| == 4
  {
    [n % 256, (n / 256) % 256, (n / 256 / 256) % 256, (n / 256 / 256 / 256) % 256]
  }

  /** The number a little-endian byte string stands for. */
  function ReadLE(bs: seq<byte>): nat
  {
    if bs == [] then 0 else bs[0] + 256 * ReadLE(bs[1..])
  }

  /** Reading back a 16-bit field gives the number modulo 2^16. */
  lemma LE16Decodes(n: nat)
    ensures ReadLE(LE16(n)) == n % TWO16
  {
    var r := LE16(n);
    assert r[1..][1..] == [];
    var b0: int, b1: int := r[0], r[1];
    assert ReadLE(r) == b0 + 256 * b1 by {
      assert ReadLE(r[1..]) == b1;
    }
    var q1 := n / 256;
    var q2 := q1 / 256;
    assert n == 256 * q1 + b0;
    assert q1 == 256 * q2 + b1;
    assert n == TWO16 * q2 + (b0 + 256 * b1);
  }

  /** Reading back a 32-bit field gives the number modulo 2^32. */
  lemma LE32Decodes(n: nat)
    ensures ReadLE(LE32(n)) == n % TWO32
  {
    var r := LE32(n);
    var b0: int, b1: int, b2: int, b3: int := r[0], r[1], r[2], r[3];
    assert ReadLE(r) == b0 + 256 * (b1 + 256 * (b2 + 256 * b3)) by {
      assert r[1..][1..][1..][1..] == [];
      assert ReadLE(r[1..][1..][1..]) == b3;
      assert ReadLE(r[1..][1..]) == b2 + 256 * b3;
      assert ReadLE(r[1..]) == b1 + 256 * (b2 + 256 * b3);
    }
    var q1 := n / 256;
    var q2 := q1 / 256;
    var q3 := q2 / 256;
    var q4 := q3 / 256;
    assert n == 256 * q1 + b0;
    assert q1 == 256 * q2 + b1;
    assert q2 == 256 * q3 + b2;
    assert q3 == 256 * q4 + b3;
    assert n == TWO32 * q4 + (b0 + 256 * (b1 + 256 * (b2 + 256 * b3)));
    ModTwo32(n, q4, b0 + 256 * (b1 + 256 * (b2 + 256 * b3)));
  }

  /** The remainder modulo 2^32 read off a decomposition. */
  lemma ModTwo32(n: int, q: int, r: int)
    requires 0 <= r < TWO32 && n == TWO32 * q + r
    ensures n % TWO32 == r
  {
  }

  /** The width and height byte: the size itself below 256, 0 for 256 and
      above. */
  function DimByte(size: nat): (b: byte)
    ensures size < 256 ==> b == size
    ensures size >= 256 ==> b == 0
  {
    if size < 256 then size else 0
  }

  /** The 6-byte ICONDIR: reserved 0, type 1, image count. */
  function Header(count: nat): (r: seq<byte>)
    ensures |r| == 6
  {
    [0, 0] + [1, 0] + LE16(count)
  }

  /** One 16-byte ICONDIRENTRY: width, height, no palette, reserved, one
      plane, 32 bits per pixel, payload length, payload offset. */
  function DirEntry(size: nat, len: nat, offset: nat): (r: seq<byte>)
    ensures |r| == 16
  {
    [DimByte(size)] + [DimByte(size)] + [0] + [0] + [1, 0] + [32, 0] + LE32(len) + LE32(offset)
  }

  /** Total length of a list of payloads. */
  function TotalLen(ps: seq<seq<byte>>): nat
  {
    if ps == [] then 0 else TotalLen(ps[..|ps| - 1]) + |ps[|ps| - 1]|
  }

  /** The payloads one after another. */
  function Flatten(ps: seq<seq<byte>>): (r: seq<byte>)
    ensures |r| == TotalLen(ps)
  {
    if ps == [] then [] else Flatten(ps[..|ps| - 1]) + ps[|ps| - 1]
  }

  /** Where payload `i` of `n` starts: after the header and all entries,
      and after every earlier payload. */
  function Offset(n: nat, ps: seq<seq<byte>>, i: nat): nat
    requires i <= |ps|
  {
    6 + 16 * n + TotalLen(ps[..i])
  }

  /** The directory entries for the first `k` images. */
  function Directory(sizes: seq<nat>, ps: seq<seq<byte>>, k: nat): (r: seq<byte>)
    requires k <= |sizes| == |ps|
    ensures |r| == 16 * k
  {
    if k == 0 then []
    else Directory(sizes, ps, k - 1) + DirEntry(sizes[k - 1], |ps[k - 1]|, Offset(|ps|, ps, k - 1))
  }

  /** The whole icon file. */
  function IcoFile(sizes: seq<nat>, ps: seq<seq<byte>>): seq<byte>
    requires |sizes| == |ps|
  {
    Header(|ps|) + Directory(sizes, ps, |ps|) + Flatten(ps)
  }

  /** The writer of the icon converter: the header, then one entry per
      image with a running offset, then the collected payloads. */
  method WriteIco(sizes: seq<nat>, payloads: seq<seq<byte>>) returns (file: seq<byte>)
    requires |sizes| == |payloads|
    ensures file == IcoFile(sizes, payloads)
  {
    var n := |payloads|;
    file := [0, 0];
    file := file + [1, 0];
    file := file + LE16(n);
    var imageData: seq<seq<byte>> := [];
    var offset := 6 + n * 16;
    for i := 0 to n
      invariant imageData == payloads[..i]
      invariant offset == Offset(n, payloads, i)
      invariant file == Header(n) + Directory(sizes, payloads, i)
    {
      var png := payloads[i];
      file := WriteEntry(file, sizes[i], |png|, offset);
      imageData := imageData + [png];
      offset := offset + |png|;
      assert payloads[..i + 1][..i] == payloads[..i];
      assert TotalLen(payloads[..i + 1]) == TotalLen(payloads[..i]) + |png|;
    }
    assert imageData == payloads;
    file := AppendAll(file, imageData);
  }

  /** The closing loop: every collected payload written in turn. */
  method AppendAll(file: seq<byte>, ps: seq<seq<byte>>) returns (out: seq<byte>)
    ensures out == file + Flatten(ps)
  {
    out := file;
    for j := 0 to |ps|
      invariant out == file + Flatten(ps[..j])
    {
      assert ps[..j + 1][..j] == ps[..j];
      out := out + ps[j];
    }
    assert ps[..|ps|] == ps;
  }

  /** The eight writes of one ICONDIRENTRY. */
  method WriteEntry(file: seq<byte>, size: nat, len: nat, offset: nat) returns (out: seq<byte>)
    ensures out == file + DirEntry(size, len, offset)
  {
    out := file + [DimByte(size)];
    out := out + [DimByte(size)];
    out := out + [0];
    out := out + [0];
    out := out + [1, 0];
    out := out + [32, 0];
    out := out + LE32(len);
    out := out + LE32(offset);
  }

  /** The file opens with `0, 0, 1, 0` and the image count. */
  lemma HeaderLayout(sizes: seq<nat>, ps: seq<seq<byte>>)
    requires |sizes| == |ps|
    ensures IcoFile(sizes, ps)[..4] == [0, 0, 1, 0]
    ensures ReadLE(IcoFile(sizes, ps)[4..6]) == |ps| % TWO16
  {
    var f := IcoFile(sizes, ps);
    assert f[..6] == Header(|ps|);
    assert f[4..6] == LE16(|ps|);
    LE16Decodes(|ps|);
  }

  lemma {:induction false} DirectoryPrefix(sizes: seq<nat>, ps: seq<seq<byte>>, i: nat, k: nat)
    requires i < k <= |sizes| == |ps|
    ensures Directory(sizes, ps, k)[16 * i..16 * i + 16] == DirEntry(sizes[i], |ps[i]|, Offset(|ps|, ps, i))
    decreases k
  {
    var d := Directory(sizes, ps, k - 1);
    var e := DirEntry(sizes[k - 1], |ps[k - 1]|, Offset(|ps|, ps, k - 1));
    assert Directory(sizes, ps, k) == d + e;
    if i < k - 1 {
      DirectoryPrefix(sizes, ps, i, k - 1);
      assert 16 * i + 16 <= |d|;
      assert (d + e)[16 * i..16 * i + 16] == d[16 * i..16 * i + 16];
    } else {
      assert |d| == 16 * i;
      assert (d + e)[16 * i..16 * i + 16] == e;
    }
  }

  /** Entry `i` sits at byte `6 + 16*i` and holds the dimension bytes, the
      fixed plane and depth fields, the payload length and the offset of
      payload `i`, both truncated to 32 bits. */
  lemma EntryLayout(sizes: seq<nat>, ps: seq<seq<byte>>, i: nat)
    requires |sizes| == |ps| && i < |ps|
    ensures var e := IcoFile(sizes, ps)[6 + 16 * i..6 + 16 * i + 16];
      e[0] == e[1] == DimByte(sizes[i]) &&
      e[2..8] == [0, 0, 1, 0, 32, 0] &&
      ReadLE(e[8..12]) == |ps[i]| % TWO32 &&
      ReadLE(e[12..16]) == Offset(|ps|, ps, i) % TWO32
  {
    var f := IcoFile(sizes, ps);
    var d := Directory(sizes, ps, |ps|);
    DirectoryPrefix(sizes, ps, i, |ps|);
    assert f[6..6 + 16 * |ps|] == d;
    assert f[6 + 16 * i..6 + 16 * i + 16] == d[16 * i..16 * i + 16];
    EntryFields(sizes[i], |ps[i]|, Offset(|ps|, ps, i));
  }

  /** The fields of one ICONDIRENTRY read back. */
  lemma EntryFields(size: nat, len: nat, offset: nat)
    ensures var e := DirEntry(size, len, offset);
      e[0] == e[1] == DimByte(size) &&
      e[2..8] == [0, 0, 1, 0, 32, 0] &&
      ReadLE(e[8..12]) == len % TWO32 &&
      ReadLE(e[12..16]) == offset % TWO32
  {
    var e := DirEntry(size, len, offset);
    assert e[8..12] == LE32(len);
    assert e[12..16] == LE32(offset);
    LE32Decodes(len);
    LE32Decodes(offset);
  }

  /** The first offset is just past the directory, and each later offset
      is the previous one plus the previous payload's length. */
  lemma OffsetsAccumulate(ps: seq<seq<byte>>, i: nat)
    requires i < |ps|
    ensures Offset(|ps|, ps, 0) == 6 + 16 * |ps|
    ensures Offset(|ps|, ps, i + 1) == Offset(|ps|, ps, i) + |ps[i]|
  {
    assert ps[..i + 1][..i] == ps[..i];
  }

  lemma {:induction false} FlattenSlice(ps: seq<seq<byte>>, i: nat, k: nat)
    requires i < k <= |ps|
    ensures TotalLen(ps[..i]) + |ps[i]| <= TotalLen(ps[..k])
    ensures Flatten(ps[..k])[TotalLen(ps[..i])..TotalLen(ps[..i]) + |ps[i]|] == ps[i]
    decreases k
  {
    var pk := ps[..k];
    assert pk[..k - 1] == ps[..k - 1];
    var f := Flatten(ps[..k - 1]);
    var t := TotalLen(ps[..i]);
    assert Flatten(pk) == f + ps[k - 1];
    assert TotalLen(pk) == TotalLen(ps[..k - 1]) + |ps[k - 1]|;
    if i < k - 1 {
      FlattenSlice(ps, i, k - 1);
      assert (f + ps[k - 1])[t..t + |ps[i]|] == f[t..t + |ps[i]|];
    } else {
      assert ps[..k - 1] == ps[..i];
      assert |f| == t;
      assert (f + ps[k - 1])[t..t + |ps[i]|] == ps[k - 1];
    }
  }

  lemma {:induction false} TotalLenMonotone(ps: seq<seq<byte>>, i: nat, k: nat)
    requires i <= k <= |ps|
    ensures TotalLen(ps[..i]) <= TotalLen(ps[..k])
    decreases k - i
  {
    if i < k {
      TotalLenMonotone(ps, i + 1, k);
      assert ps[..i + 1][..i] == ps[..i];
    }
  }

  /** Payload `i` is found at the offset its entry records. */
  lemma PayloadLayout(sizes: seq<nat>, ps: seq<seq<byte>>, i: nat)
    requires |sizes| == |ps| && i < |ps|
    ensures Offset(|ps|, ps, i) + |ps[i]| <= |IcoFile(sizes, ps)|
    ensures IcoFile(sizes, ps)[Offset(|ps|, ps, i)..Offset(|ps|, ps, i) + |ps[i]|] == ps[i]
  {
    var f := IcoFile(sizes, ps);
    var base := 6 + 16 * |ps|;
    assert ps[..|ps|] == ps;
    FlattenSlice(ps, i, |ps|);
    assert f[base..] == Flatten(ps);
  }

  /** The file is the header, the entries and the payloads, nothing more. */
  lemma FileLength(sizes: seq<nat>, ps: seq<seq<byte>>)
    requires |sizes| == |ps|
    ensures |IcoFile(sizes, ps)| == 6 + 16 * |ps| + TotalLen(ps)
  {
  }

  /** The sizes the converter renders. */
  const IconSizes: seq<nat> := [16, 32, 48, 64, 128, 256]

  /** For the converter's six sizes the count field reads 6, the five
      smaller sizes are written as themselves and 256 as 0. */
  lemma ConverterIcon(ps: seq<seq<byte>>)
    requires |ps| == |IconSizes|
    ensures IcoFile(IconSizes, ps)[4..6] == [6, 0]
    ensures forall i :: 0 <= i < 5 ==> IcoFile(IconSizes, ps)[6 + 16 * i] == IconSizes[i]
    ensures IcoFile(IconSizes, ps)[6 + 16 * 5] == 0
  {
    var f := IcoFile(IconSizes, ps);
    assert f[..6] == Header(6);
    forall i | 0 <= i < 6
      ensures f[6 + 16 * i] == DimByte(IconSizes[i])
    {
      EntryLayout(IconSizes, ps, i);
    }
  }
}
