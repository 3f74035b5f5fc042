/** The firmware's LED model (firmware/src/main.cpp): the base colour and local
    brightness arrays, the global brightness, and the preview selection with its backup,
    together with the pure helpers `parseHexColor` and `clampRange` and the selection
    primitives `freeSelection`, `restoreSelection` and `createSelection`.
    The FastLED output (`applyToStrip`) only reads this state and is left out. */
module Strip {
  import opened Wrappers
  import opened Text
  import CNum

  /** `NUM_LEDS`. */
  const NumLeds: nat := 99
  const LastLed: nat := NumLeds - 1

  /** `MyRGB`. */
  datatype RGB = RGB(r: byte, g: byte, b: byte)

  const Black := RGB(0, 0, 0)
  const White := RGB(255, 255, 255)

  /** The copies of the selected range taken when it was claimed
      (`selBackupRGB`, `selBackupLB`; `None` is a null backup array). */
  datatype Backup = Backup(rgb: seq<RGB>, lb: seq<byte>)

  /** `selActive`, `selDirty`, `selStart`, `selEnd`, `selLen` and the backup buffers. */
  datatype Selection = Selection(active: bool, dirty: bool, start: u16, end: u16, len: u16,
                                 backup: Option<Backup>)

  /** Everything the HTTP handlers read and write: `baseRGB`, `localB`, `state.gbright`
      and the selection. */
  datatype Device = Device(baseRGB: seq<RGB>, localB: seq<byte>, gbright: byte, sel: Selection)

  const NoSelection := Selection(false, false, 0, 0, 0, None)

  /** The state `setup()` establishes before any saved scene is loaded: all LEDs black at
      full local brightness, global brightness 128, no selection. */
  const Init := Device(seq(NumLeds, _ => Black), seq(NumLeds, _ => 255), 128, NoSelection)

  /** What every reachable state satisfies: both arrays have `NUM_LEDS` entries; a selection
      is active exactly when its backup buffers exist; an active selection is an in-range
      ordered pair whose `selLen` is its width and whose buffers have that length; only an
      active selection can be dirty. */
  predicate Valid(d: Device) {
    && |d.baseRGB| == NumLeds
    && |d.localB| == NumLeds
    && (d.sel.active <==> d.sel.backup.Some?)
    && (!d.sel.active ==> !d.sel.dirty)
    && (d.sel.active ==>
          && d.sel.start <= d.sel.end < NumLeds
          && d.sel.len == d.sel.end - d.sel.start + 1
          && |d.sel.backup.value.rgb| == d.sel.len
          && |d.sel.backup.value.lb| == d.sel.len)
  }

  lemma InitValid()
    ensures Valid(Init) && !Init.sel.active
    ensures forall i :: 0 <= i < NumLeds ==> Init.baseRGB[i] == Black && Init.localB[i] == 255
  {
  }

  // ---------------------------------------------------------------- sequence helpers

  /** `s` with every index in `[lo, hi]` set to `v`. */
  function Fill<T>(s: seq<T>, lo: nat, hi: nat, v: T): (r: seq<T>)
    ensures |r| == |s|
    ensures forall i :: 0 <= i < |s| ==> r[i] == (if lo <= i <= hi then v else s[i])
  {
    seq(|s|, i requires 0 <= i < |s| => if lo <= i <= hi then v else s[i])
  }

  /** `s` with `w` copied over it from index `at`. */
  function Overlay<T>(s: seq<T>, at: nat, w: seq<T>): (r: seq<T>)
    requires at + |w| <= |s|
    ensures |r| == |s|
    ensures forall i :: 0 <= i < |s| ==> r[i] == (if at <= i < at + |w| then w[i - at] else s[i])
  {
    s[..at] + w + s[at + |w|..]
  }

  // ---------------------------------------------------------------- parseHexColor

  /** The optional `#` that `parseHexColor` strips, only from a 7-character argument. */
  function StripHash(hex: string): (h: string)
    ensures |hex| == 7 && hex[0] == '#' ==> h == hex[1..]
    ensures !(|hex| == 7 && hex[0] == '#') ==> h == hex
  {
    if |hex| == 7 && hex[0] == '#' then hex[1..] else hex
  }

  /** `parseHexColor`: after the optional `#`, exactly six characters, which `strtol` in
      base 16 must consume up to the C string's terminator; the colour is
      `(v>>16)&0xFF, (v>>8)&0xFF, v&0xFF`. `>>` on a negative `long` is arithmetic, which is
      Dafny's `/` by a positive power of two. */
  function ParseHexColor(hex: string): (c: Option<RGB>)
    ensures |StripHash(hex)| != 6 ==> c == None
  {
    var h := StripHash(hex);
    if |h| != 6 then None
    else
      var v := CNum.Strtol(h, 16);
      if v.end < |h| && h[v.end] != '\0' then None
      else Some(RGB(LowByte(v.value / 0x1_0000), LowByte(v.value / 0x100), LowByte(v.value)))
  }

  /** The byte two hex digits spell, high nibble first. */
  function HexByte(hi: char, lo: char): (b: byte)
    requires IsHexDigit(hi) && IsHexDigit(lo)
  {
    16 * HexValue(hi) + HexValue(lo)
  }

  /** The colour six hex digits spell as `RRGGBB`. */
  function HexColor(h: string): RGB
    requires |h| == 6 && AllHexDigits(h)
  {
    RGB(HexByte(h[0], h[1]), HexByte(h[2], h[3]), HexByte(h[4], h[5]))
  }

  lemma ByteSplit(x: byte, y: byte, z: byte)
    ensures LowByte((x * 0x1_0000 + y * 0x100 + z) / 0x1_0000) == x
    ensures LowByte((x * 0x1_0000 + y * 0x100 + z) / 0x100) == y
    ensures LowByte(x * 0x1_0000 + y * 0x100 + z) == z
  {
    var v := x * 0x1_0000 + y * 0x100 + z;
    assert v / 0x1_0000 == x;
    assert v / 0x100 == x * 0x100 + y;
    assert (x * 0x100 + y) % 0x100 == y;
    assert v % 0x100 == z;
  }

  /** The value `strtol` reads from six hex digits, one byte per digit pair. */
  lemma {:induction false} SixHexDigitsValue(h: string)
    requires |h| == 6 && AllHexDigits(h)
    ensures forall k :: 0 <= k < 6 ==> CNum.IsDigitIn(h[k], 16)
    ensures CNum.RunValue(h, 0, 6, 16)
         == HexByte(h[0], h[1]) * 0x1_0000 + HexByte(h[2], h[3]) * 0x100 + HexByte(h[4], h[5])
  {
    assert forall k :: 0 <= k < 6 ==> CNum.IsDigitIn(h[k], 16);
    assert CNum.RunValue(h, 0, 1, 16) == HexValue(h[0]);
    assert CNum.RunValue(h, 0, 2, 16) == HexByte(h[0], h[1]);
    assert CNum.RunValue(h, 0, 3, 16) == HexByte(h[0], h[1]) * 16 + HexValue(h[2]);
    assert CNum.RunValue(h, 0, 4, 16) == HexByte(h[0], h[1]) * 0x100 + HexByte(h[2], h[3]);
    assert CNum.RunValue(h, 0, 5, 16)
        == (HexByte(h[0], h[1]) * 0x100 + HexByte(h[2], h[3])) * 16 + HexValue(h[4]);
  }

  /** Six hex digits are consumed whole by `strtol`. */
  lemma {:induction false} StrtolOfSixHexDigits(h: string)
    requires |h| == 6 && AllHexDigits(h)
    ensures CNum.Strtol(h, 16)
         == CNum.Conv(HexByte(h[0], h[1]) * 0x1_0000 + HexByte(h[2], h[3]) * 0x100 + HexByte(h[4], h[5]), 6)
  {
    SixHexDigitsValue(h);
    assert h[1] != 'x' && h[1] != 'X';
    CNum.StrtolOfDigits(h, 16);
  }

  /** Six hex digits, with or without a leading `#`, are accepted and read as `RRGGBB`. */
  lemma {:induction false} ParseHexColorAcceptsSixHexDigits(h: string)
    requires |h| == 6 && AllHexDigits(h)
    ensures ParseHexColor(h) == Some(HexColor(h))
    ensures ParseHexColor("#" + h) == Some(HexColor(h))
  {
    ParsePlainSixHexDigits(h);
    assert StripHash("#" + h) == h == StripHash(h);
  }

  lemma {:induction false} ParsePlainSixHexDigits(h: string)
    requires |h| == 6 && AllHexDigits(h)
    ensures ParseHexColor(h) == Some(HexColor(h))
  {
    StrtolOfSixHexDigits(h);
    ByteSplit(HexByte(h[0], h[1]), HexByte(h[2], h[3]), HexByte(h[4], h[5]));
    assert StripHash(h) == h;
  }

  /** The parse is laxer than `RRGGBB`: `strtol` also takes a sign, so "-00001" is
      accepted and, being -1, reads as white. */
  lemma ParseHexColorAcceptsSign()
    ensures ParseHexColor("-00001") == Some(White)
  {
    var h := "-00001";
    assert StripHash(h) == h;
    assert CNum.SkipSpaces(h, 0) == 0;
    assert CNum.DigitRun(h, 1, 16) == 6 by {
      CNum.RunCoversDigits(h, 1, 16);
    }
    assert CNum.RunValue(h, 1, 6, 16) == 1;
  }

  // ---------------------------------------------------------------- clampRange

  /** `clampRange`: each bound is capped at the last LED, then an inverted pair is swapped. */
  function ClampRange(s: u16, e: u16): (r: (u16, u16))
    ensures r.0 <= r.1 <= LastLed
    ensures multiset{r.0, r.1} == multiset{Clamp(s, 0, LastLed), Clamp(e, 0, LastLed)}
    ensures s <= e <= LastLed ==> r == (s, e)
  {
    var s1 := if s >= NumLeds then LastLed else s;
    var e1 := if e >= NumLeds then LastLed else e;
    if s1 > e1 then (e1, s1) else (s1, e1)
  }

  /** A clamped range is a fixed point, so clamping twice (as `handleSelect` then
      `createSelection` do) is clamping once. */
  lemma ClampRangeIdempotent(s: u16, e: u16)
    ensures ClampRange(ClampRange(s, e).0, ClampRange(s, e).1) == ClampRange(s, e)
  {
  }

  /** An inverted in-range pair is swapped, not collapsed to one index. */
  lemma ClampRangeSwaps(s: u16, e: u16)
    requires e < s <= LastLed
    ensures ClampRange(s, e) == (e, s)
  {
  }

  // ---------------------------------------------------------------- selection primitives

  /** `freeSelection`: drops the backup buffers and clears the selection flags and length;
      `selStart`/`selEnd` and the arrays are kept. */
  function FreeSelection(d: Device): (r: Device)
    ensures r.sel == NoSelection.(start := d.sel.start, end := d.sel.end)
    ensures r.baseRGB == d.baseRGB && r.localB == d.localB && r.gbright == d.gbright
  {
    d.(sel := d.sel.(active := false, dirty := false, len := 0, backup := None))
  }

  /** `restoreSelection`: with an active selection, copies the backup buffers back over
      the selected range and frees the selection; otherwise does nothing. */
  function RestoreSelection(d: Device): (r: Device)
    requires Valid(d)
    ensures Valid(r) && !r.sel.active && r.gbright == d.gbright
    ensures !d.sel.active ==> r == d
    ensures d.sel.active ==>
      forall i :: 0 <= i < NumLeds ==>
        if d.sel.start <= i <= d.sel.end
        then r.baseRGB[i] == d.sel.backup.value.rgb[i - d.sel.start]
             && r.localB[i] == d.sel.backup.value.lb[i - d.sel.start]
        else r.baseRGB[i] == d.baseRGB[i] && r.localB[i] == d.localB[i]
  {
    match d.sel.backup
    case None => d
    case Some(b) =>
      if !d.sel.active then d
      else FreeSelection(d.(baseRGB := Overlay(d.baseRGB, d.sel.start, b.rgb),
                            localB := Overlay(d.localB, d.sel.start, b.lb)))
  }

  /** The state `createSelection` starts from: a dirty selection is rolled back, a clean
      one is only freed. */
  function Release(d: Device): (r: Device)
    requires Valid(d)
    ensures Valid(r) && !r.sel.active && r.gbright == d.gbright
    ensures d.sel.active && d.sel.dirty ==> r == RestoreSelection(d)
    ensures !(d.sel.active && d.sel.dirty) ==> r.baseRGB == d.baseRGB && r.localB == d.localB
  {
    if d.sel.active && d.sel.dirty then RestoreSelection(d)
    else if d.sel.active then FreeSelection(d)
    else d
  }

  datatype Created = Created(dev: Device, ok: bool)

  /** `createSelection(s, e)`; `allocOk` stands for both `malloc` calls succeeding. */
  function CreateSelection(d: Device, s: u16, e: u16, allocOk: bool): (c: Created)
    requires Valid(d)
    ensures Valid(c.dev) && c.ok == allocOk
    ensures c.dev.baseRGB == Release(d).baseRGB && c.dev.localB == Release(d).localB
    ensures c.dev.gbright == d.gbright
    ensures !c.ok ==> !c.dev.sel.active
    ensures c.ok ==>
      && c.dev.sel.active && !c.dev.sel.dirty
      && (c.dev.sel.start, c.dev.sel.end) == ClampRange(s, e)
      && c.dev.sel.len == c.dev.sel.end - c.dev.sel.start + 1
      && c.dev.sel.backup == Some(Backup(c.dev.baseRGB[c.dev.sel.start..c.dev.sel.end + 1],
                                         c.dev.localB[c.dev.sel.start..c.dev.sel.end + 1]))
  {
    var d1 := Release(d);
    var (cs, ce) := ClampRange(s, e);
    var d2 := d1.(sel := d1.sel.(start := cs, end := ce, len := ce - cs + 1));
    if !allocOk then Created(FreeSelection(d2), false)
    else
      var b := Backup(d2.baseRGB[cs..ce + 1], d2.localB[cs..ce + 1]);
      Created(d2.(sel := d2.sel.(backup := Some(b), active := true, dirty := false)), true)
  }
}
