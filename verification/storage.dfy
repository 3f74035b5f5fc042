/** The saved scene (firmware/src/main.cpp `handleSave`, `handleLoad`): the packed
    `StateHeader` (little-endian `magic`, `version`, `num_leds`, then `gbright`), the
    colour array as `r,g,b` bytes and the local-brightness array. The flash file system
    is a parameter: whether each write succeeds, and the file's bytes when reading. */
module Storage {
  import opened Wrappers
  import opened Text
  import opened Strip
  import opened Handlers

  const Magic: nat := 0xBEEF_CAFE
  const Version: nat := 3
  /** `sizeof(StateHeader)`: the struct is packed, 4 + 2 + 2 + 1 bytes. */
  const HeaderSize: nat := 9
  const RgbBytes: nat := NumLeds * 3
  const LbBytes: nat := NumLeds
  const ImageSize: nat := HeaderSize + RgbBytes + LbBytes

  datatype Header = Header(magic: nat, version: nat, numLeds: nat, gbright: byte)

  /** The header as the first nine bytes of a file, read little-endian. */
  function DecodeHeader(f: seq<byte>): Header
    requires |f| >= HeaderSize
  {
    var b := seq(HeaderSize, i requires 0 <= i < HeaderSize => f[i] as int);
    Header(b[0] + 0x100 * b[1] + 0x1_0000 * b[2] + 0x100_0000 * b[3],
           b[4] + 0x100 * b[5], b[6] + 0x100 * b[7], f[8])
  }

  /** The check of `handleLoad`. */
  predicate HeaderOk(h: Header) {
    h.magic == Magic && h.version == Version && h.numLeds == NumLeds
  }

  /** The bytes `handleSave` writes for `state`: the fixed magic, version and LED count,
      then the global brightness. */
  function EncodeHeader(gbright: byte): (b: seq<byte>)
    ensures |b| == HeaderSize
    ensures DecodeHeader(b) == Header(Magic, Version, NumLeds, gbright)
  {
    [0xFE, 0xCA, 0xEF, 0xBE, 3, 0, NumLeds, 0, gbright]
  }

  /** Only the bytes `EncodeHeader` writes pass the header check. */
  lemma HeaderOkIsEncoded(f: seq<byte>)
    requires |f| >= HeaderSize
    ensures HeaderOk(DecodeHeader(f)) <==> f[..HeaderSize] == EncodeHeader(f[8])
  {
    if HeaderOk(DecodeHeader(f)) {
      assert f[0] == 0xFE;
      assert f[1] == 0xCA;
      assert f[2] == 0xEF;
      assert f[3] == 0xBE;
      assert f[4] == 3 && f[5] == 0;
      assert f[6] == NumLeds && f[7] == 0;
    }
  }

  // ---------------------------------------------------------------- the colour array in bytes

  /** `baseRGB` as the bytes `f.write((uint8_t*)baseRGB, ...)` sends. */
  function Flatten(s: seq<RGB>): (b: seq<byte>)
    ensures |b| == 3 * |s|
    ensures forall i :: 0 <= i < |s| ==> b[3 * i] == s[i].r && b[3 * i + 1] == s[i].g && b[3 * i + 2] == s[i].b
  {
    if |s| == 0 then [] else [s[0].r, s[0].g, s[0].b] + Flatten(s[1..])
  }

  /** Bytes read into `baseRGB`, three per LED. */
  function Unflatten(b: seq<byte>): (s: seq<RGB>)
    requires |b| % 3 == 0
    ensures 3 * |s| == |b|
    ensures forall i :: 0 <= i < |s| ==> s[i] == RGB(b[3 * i], b[3 * i + 1], b[3 * i + 2])
  {
    seq(|b| / 3, i requires 0 <= i < |b| / 3 => RGB(b[3 * i], b[3 * i + 1], b[3 * i + 2]))
  }

  lemma UnflattenFlatten(s: seq<RGB>)
    ensures Unflatten(Flatten(s)) == s
  {
  }

  /** The whole file `handleSave` writes. */
  function Image(d: Device): (f: seq<byte>)
    requires Valid(d)
    ensures |f| == ImageSize
  {
    EncodeHeader(d.gbright) + Flatten(d.baseRGB) + d.localB
  }

  // ---------------------------------------------------------------- /save

  /** How the file writes of one save go: `open` fails, one of the three writes comes up
      short, or all succeed. */
  datatype WriteOutcome = OpenFailed | WriteFailed | Written

  /** A save's reply and, when every write succeeded, the file's new contents (after a
      failed write the partially written file is not modelled). */
  datatype Saved = Saved(reply: Reply, image: Option<seq<byte>>)

  /** `handleSave`: 500 on any file error, state untouched; otherwise the scene is written
      and the selection is freed without rolling back, so the preview becomes permanent. */
  function HandleSave(d: Device, w: WriteOutcome): (s: Saved)
    requires Valid(d)
    ensures Valid(s.reply.dev)
    ensures s.reply.code == 200 <==> w == Written
    ensures w != Written ==> s.reply == Reply(d, 500) && s.image == None
    ensures w == Written ==>
      && s.image == Some(Image(d))
      && !s.reply.dev.sel.active && !s.reply.dev.sel.dirty
      && s.reply.dev.baseRGB == d.baseRGB && s.reply.dev.localB == d.localB
      && s.reply.dev.gbright == d.gbright
  {
    if w != Written then Saved(Reply(d, 500), None)
    else Saved(Reply(FreeSelection(d), 200), Some(Image(d)))
  }

  // ---------------------------------------------------------------- /load

  /** The number of bytes `f.read(buf, n)` delivers from offset `at`. */
  function ReadCount(f: seq<byte>, at: nat, n: nat): (k: nat)
    ensures k <= n
    ensures at <= |f| ==> at + k <= |f|
    ensures at + n <= |f| ==> k == n
  {
    if at >= |f| then 0 else if |f| - at < n then |f| - at else n
  }

  /** The colour array after `f.read((uint8_t*)baseRGB, rgbBytes)`: the bytes the file
      still holds after the header overwrite the array's first bytes. */
  function ReadColours(base: seq<RGB>, f: seq<byte>): (r: seq<RGB>)
    requires |base| == NumLeds && |f| >= HeaderSize
    ensures |r| == NumLeds
    ensures |f| >= HeaderSize + RgbBytes ==> r == Unflatten(f[HeaderSize..HeaderSize + RgbBytes])
  {
    var k := ReadCount(f, HeaderSize, RgbBytes);
    var b := f[HeaderSize..HeaderSize + k] + Flatten(base)[k..];
    if k == RgbBytes then
      assert b == f[HeaderSize..HeaderSize + RgbBytes];
      Unflatten(b)
    else Unflatten(b)
  }

  /** The brightness array after `f.read(localB, lbBytes)` from just past the colours. */
  function ReadBrightness(lb: seq<byte>, f: seq<byte>): (r: seq<byte>)
    requires |lb| == NumLeds && |f| >= HeaderSize + RgbBytes
    ensures |r| == NumLeds
    ensures |f| >= ImageSize ==> r == f[HeaderSize + RgbBytes..ImageSize]
  {
    var m := ReadCount(f, HeaderSize + RgbBytes, LbBytes);
    f[HeaderSize + RgbBytes..HeaderSize + RgbBytes + m] + lb[m..]
  }

  /** `handleLoad`: 404 when the file cannot be opened; 400, state untouched, when the
      header is short or fails the check. Otherwise `state` takes the file's header, the
      colour bytes and then the brightness bytes are read over the arrays; a short read
      answers 400 with what was read so far already in place. After two full reads the
      selection is freed and the answer is 200. */
  function HandleLoad(d: Device, file: Option<seq<byte>>): (r: Reply)
    requires Valid(d)
    ensures Valid(r.dev)
    ensures r.code in {200, 400, 404}
    ensures file.None? ==> r == Reply(d, 404)
    ensures file.Some? && (|file.value| < HeaderSize || !HeaderOk(DecodeHeader(file.value))) ==>
      r == Reply(d, 400)
    ensures r.code == 200 <==>
      file.Some? && |file.value| >= ImageSize && HeaderOk(DecodeHeader(file.value))
    ensures r.code == 200 ==>
      && !r.dev.sel.active && !r.dev.sel.dirty
      && r.dev.gbright == file.value[8]
      && r.dev.baseRGB == Unflatten(file.value[HeaderSize..HeaderSize + RgbBytes])
      && r.dev.localB == file.value[HeaderSize + RgbBytes..ImageSize]
  {
    match file
    case None => Reply(d, 404)
    case Some(f) =>
      if |f| < HeaderSize || !HeaderOk(DecodeHeader(f)) then Reply(d, 400)
      else
        var d1 := d.(gbright := DecodeHeader(f).gbright, baseRGB := ReadColours(d.baseRGB, f));
        if |f| < HeaderSize + RgbBytes then Reply(d1, 400)
        else
          var d2 := d1.(localB := ReadBrightness(d.localB, f));
          if |f| < ImageSize then Reply(d2, 400)
          else Reply(FreeSelection(d2), 200)
  }

  /** Loading what a successful save wrote brings back the saved colours, brightnesses
      and global brightness, with no selection, whatever the state before the load. */
  lemma SaveLoadRoundTrip(saved: Device, current: Device)
    requires Valid(saved) && Valid(current)
    ensures HandleSave(saved, Written).image.Some?
    ensures var r := HandleLoad(current, HandleSave(saved, Written).image);
      && r.code == 200 && !r.dev.sel.active
      && r.dev.baseRGB == saved.baseRGB && r.dev.localB == saved.localB
      && r.dev.gbright == saved.gbright
  {
    var f := Image(saved);
    assert f[..HeaderSize] == EncodeHeader(saved.gbright);
    assert f[HeaderSize..HeaderSize + RgbBytes] == Flatten(saved.baseRGB);
    assert f[HeaderSize + RgbBytes..ImageSize] == saved.localB;
    UnflattenFlatten(saved.baseRGB);
  }
}
