/** The firmware's REST handlers that act on the preview selection and brightness
    (firmware/src/main.cpp): `/select`, `/set`, `/lbright`, `/cancel`, `/blink` and
    `/brightness`. Each is a pure transition from the device state and the request's
    arguments to the next state and the HTTP status code sent back. Response bodies,
    CORS headers, `delay` and the FastLED output are left out. */
module Handlers {
  import opened Wrappers
  import opened Text
  import opened Strip
  import CNum

  /** A request's query arguments in order, after the web server has split them. */
  type Args = seq<(string, string)>

  /** `server.hasArg(name)`. */
  predicate HasArg(args: Args, name: string) {
    exists i :: 0 <= i < |args| && args[i].0 == name
  }

  /** `server.arg(name)`: the value of the first argument with that name, or the empty
      string when there is none. */
  function Arg(args: Args, name: string): (v: string)
    ensures !HasArg(args, name) ==> v == ""
    ensures HasArg(args, name) ==>
      exists i :: 0 <= i < |args| && args[i] == (name, v) && forall j :: 0 <= j < i ==> args[j].0 != name
  {
    if |args| == 0 then ""
    else if args[0].0 == name then args[0].1
    else
      var v := Arg(args[1..], name);
      assert HasArg(args, name) ==> HasArg(args[1..], name) by {
        if HasArg(args, name) {
          var i :| 0 <= i < |args| && args[i].0 == name;
          assert args[1..][i - 1].0 == name;
        }
      }
      assert HasArg(args, name) ==> exists i :: 0 <= i < |args| && args[i] == (name, v) && forall j :: 0 <= j < i ==> args[j].0 != name by {
        if HasArg(args, name) {
          var i :| 0 <= i < |args| - 1 && args[1..][i] == (name, v) && forall j :: 0 <= j < i ==> args[1..][j].0 != name;
          assert args[i + 1] == (name, v);
          assert forall j :: 0 <= j < i + 1 ==> args[j].0 != name by {
            forall j | 0 <= j < i + 1 ensures args[j].0 != name {
              if j > 0 { assert args[j] == args[1..][j - 1]; }
            }
          }
        }
      }
      v
  }

  /** A handler's outcome: the next state and the status code of the response. */
  datatype Reply = Reply(dev: Device, code: int)

  /** The state outside the selection is untouched and the selection itself is kept,
      except possibly for its dirty flag. */
  predicate SameSelection(a: Device, b: Device) {
    b.sel == a.sel.(dirty := b.sel.dirty)
  }

  // ---------------------------------------------------------------- /select

  /** One blink frame of `handleSelect`: the selected range shown in `c` at full local
      brightness. */
  function Frame(d: Device, c: RGB): (r: Device)
    requires Valid(d) && d.sel.active
    ensures Valid(r) && r.sel == d.sel && r.gbright == d.gbright
  {
    d.(baseRGB := Fill(d.baseRGB, d.sel.start, d.sel.end, c),
       localB := Fill(d.localB, d.sel.start, d.sel.end, 255))
  }

  /** The backup of an active selection holds exactly what the arrays hold on its range. */
  predicate BackupMatches(d: Device)
    requires Valid(d) && d.sel.active
  {
    d.sel.backup.value == Backup(d.baseRGB[d.sel.start..d.sel.end + 1], d.localB[d.sel.start..d.sel.end + 1])
  }

  /** The blink of `handleSelect`: white, black, white, black, then the backup copied
      back over the range. When the backup matches the arrays, as it does right after
      `createSelection`, the blink leaves no trace in the model. */
  function BlinkSelection(d: Device): (r: Device)
    requires Valid(d) && d.sel.active
    ensures Valid(r) && r.sel == d.sel && r.gbright == d.gbright
    ensures BackupMatches(d) ==> r == d
  {
    var f := Frame(Frame(Frame(Frame(d, White), Black), White), Black);
    var r := f.(baseRGB := Overlay(f.baseRGB, f.sel.start, f.sel.backup.value.rgb),
                localB := Overlay(f.localB, f.sel.start, f.sel.backup.value.lb));
    if BackupMatches(d) then
      assert forall i :: 0 <= i < NumLeds ==> r.baseRGB[i] == d.baseRGB[i];
      assert forall i :: 0 <= i < NumLeds ==> r.localB[i] == d.localB[i];
      assert r.baseRGB == d.baseRGB && r.localB == d.localB;
      r
    else r
  }

  /** The range `handleSelect` asks for: `toInt` of each bound converted to `uint16_t`,
      then clamped. */
  function RequestedRange(args: Args): (u16, u16) {
    ClampRange(ToU16(CNum.ToInt(Arg(args, "start"))), ToU16(CNum.ToInt(Arg(args, "end"))))
  }

  /** The part of `handleSelect` after the arguments are read: claim the range `s..e`
      (already clamped), answer 500 if the backup cannot be allocated, else blink the
      range when asked and answer 200. */
  function Claim(d: Device, s: u16, e: u16, allocOk: bool, blink: bool): (r: Reply)
    requires Valid(d) && ClampRange(s, e) == (s, e)
    ensures Valid(r.dev) && r.dev.gbright == d.gbright
    ensures r.dev.baseRGB == Release(d).baseRGB && r.dev.localB == Release(d).localB
    ensures r.code == (if allocOk then 200 else 500)
    ensures !allocOk ==> !r.dev.sel.active
    ensures allocOk ==>
      && r.dev.sel.active && !r.dev.sel.dirty && BackupMatches(r.dev)
      && (r.dev.sel.start, r.dev.sel.end) == (s, e)
  {
    var c := CreateSelection(d, s, e, allocOk);
    if !c.ok then Reply(c.dev, 500)
    else Reply(if blink then BlinkSelection(c.dev) else c.dev, 200)
  }

  /** `handleSelect`: 400 without `start` and `end`; 500 when the backup cannot be
      allocated; otherwise claims the clamped range, blinks it when `blink` is a non-zero
      number, and answers 200. */
  function HandleSelect(d: Device, args: Args, allocOk: bool): (r: Reply)
    requires Valid(d)
    ensures Valid(r.dev) && r.dev.gbright == d.gbright
    ensures r.code in {200, 400, 500}
    ensures !HasArg(args, "start") || !HasArg(args, "end") ==> r == Reply(d, 400)
    ensures HasArg(args, "start") && HasArg(args, "end") && !allocOk ==>
      r.code == 500 && !r.dev.sel.active
      && r.dev.baseRGB == Release(d).baseRGB && r.dev.localB == Release(d).localB
    ensures r.code == 200 <==> HasArg(args, "start") && HasArg(args, "end") && allocOk
    ensures r.code == 200 ==>
      && r.dev.sel.active && !r.dev.sel.dirty && BackupMatches(r.dev)
      && (r.dev.sel.start, r.dev.sel.end) == RequestedRange(args)
      && r.dev.baseRGB == Release(d).baseRGB && r.dev.localB == Release(d).localB
  {
    if !HasArg(args, "start") || !HasArg(args, "end") then Reply(d, 400)
    else
      var (s, e) := RequestedRange(args);
      ClampRangeIdempotent(ToU16(CNum.ToInt(Arg(args, "start"))), ToU16(CNum.ToInt(Arg(args, "end"))));
      Claim(d, s, e, allocOk, HasArg(args, "blink") && CNum.ToInt(Arg(args, "blink")) != 0)
  }

  // ---------------------------------------------------------------- /set

  /** `handleSetPreview`: 409 without an active selection (checked first), 400 for a
      missing or unparsable `hex`; otherwise paints the selected range with the colour,
      and with `lbright` clamped to 0..255 when that argument is present, marks the
      selection dirty and answers 200. */
  function HandleSetPreview(d: Device, args: Args): (r: Reply)
    requires Valid(d)
    ensures Valid(r.dev) && r.dev.gbright == d.gbright && SameSelection(d, r.dev)
    ensures r.code in {200, 400, 409}
    ensures !d.sel.active ==> r == Reply(d, 409)
    ensures d.sel.active && ParseHexColor(Arg(args, "hex")).None? ==> r == Reply(d, 400)
    ensures d.sel.active && !HasArg(args, "hex") ==> r == Reply(d, 400)
    ensures r.code == 200 <==> d.sel.active && HasArg(args, "hex") && ParseHexColor(Arg(args, "hex")).Some?
    ensures r.code == 200 ==>
      && r.dev.sel.dirty
      && forall i :: 0 <= i < NumLeds ==>
           if d.sel.start <= i <= d.sel.end then
             && r.dev.baseRGB[i] == ParseHexColor(Arg(args, "hex")).value
             && r.dev.localB[i] == (if HasArg(args, "lbright")
                                    then Clamp(CNum.ToInt(Arg(args, "lbright")), 0, 255)
                                    else d.localB[i])
           else r.dev.baseRGB[i] == d.baseRGB[i] && r.dev.localB[i] == d.localB[i]
  {
    if !d.sel.active then Reply(d, 409)
    else if !HasArg(args, "hex") then Reply(d, 400)
    else
      match ParseHexColor(Arg(args, "hex"))
      case None => Reply(d, 400)
      case Some(c) =>
        var lb := if HasArg(args, "lbright") then Some(Clamp(CNum.ToInt(Arg(args, "lbright")), 0, 255)) else None;
        Reply(Paint(d, c, lb), 200)
  }

  /** The preview `handleSetPreview` draws: the selected range in colour `c` and, when
      given, local brightness `lb`; the selection becomes dirty. */
  function Paint(d: Device, c: RGB, lb: Option<byte>): (r: Device)
    requires Valid(d) && d.sel.active
    ensures Valid(r) && r.gbright == d.gbright && r.sel == d.sel.(dirty := true)
    ensures forall i :: 0 <= i < NumLeds ==>
      if d.sel.start <= i <= d.sel.end then
        r.baseRGB[i] == c && r.localB[i] == (if lb.Some? then lb.value else d.localB[i])
      else r.baseRGB[i] == d.baseRGB[i] && r.localB[i] == d.localB[i]
  {
    d.(baseRGB := Fill(d.baseRGB, d.sel.start, d.sel.end, c),
       localB := if lb.Some? then Fill(d.localB, d.sel.start, d.sel.end, lb.value) else d.localB,
       sel := d.sel.(dirty := true))
  }

  // ---------------------------------------------------------------- /lbright

  /** `handleLocalBrightness`: 409 without an active selection, 400 without `value`;
      otherwise sets the local brightness of the selected range to `value` clamped to
      0..255, leaves the colours alone, marks the selection dirty and answers 200. */
  function HandleLocalBrightness(d: Device, args: Args): (r: Reply)
    requires Valid(d)
    ensures Valid(r.dev) && r.dev.gbright == d.gbright && SameSelection(d, r.dev)
    ensures r.dev.baseRGB == d.baseRGB
    ensures r.code in {200, 400, 409}
    ensures !d.sel.active ==> r == Reply(d, 409)
    ensures d.sel.active && !HasArg(args, "value") ==> r == Reply(d, 400)
    ensures r.code == 200 <==> d.sel.active && HasArg(args, "value")
    ensures r.code == 200 ==>
      && r.dev.sel.dirty
      && forall i :: 0 <= i < NumLeds ==>
           r.dev.localB[i] == (if d.sel.start <= i <= d.sel.end
                               then Clamp(CNum.ToInt(Arg(args, "value")), 0, 255)
                               else d.localB[i])
  {
    if !d.sel.active then Reply(d, 409)
    else if !HasArg(args, "value") then Reply(d, 400)
    else
      var v := Clamp(CNum.ToInt(Arg(args, "value")), 0, 255);
      Reply(d.(localB := Fill(d.localB, d.sel.start, d.sel.end, v), sel := d.sel.(dirty := true)), 200)
  }

  // ---------------------------------------------------------------- /cancel

  /** `handleCancel`: rolls back an active selection's preview and frees it; always 200. */
  function HandleCancel(d: Device): (r: Reply)
    requires Valid(d)
    ensures Valid(r.dev) && r.code == 200 && !r.dev.sel.active && !r.dev.sel.dirty
    ensures !d.sel.active ==> r.dev == d
    ensures d.sel.active ==>
      forall i :: 0 <= i < NumLeds ==>
        if d.sel.start <= i <= d.sel.end
        then r.dev.baseRGB[i] == d.sel.backup.value.rgb[i - d.sel.start]
             && r.dev.localB[i] == d.sel.backup.value.lb[i - d.sel.start]
        else r.dev.baseRGB[i] == d.baseRGB[i] && r.dev.localB[i] == d.localB[i]
  {
    Reply(if d.sel.active then RestoreSelection(d) else d, 200)
  }

  // ---------------------------------------------------------------- /blink

  /** `handleBlink`: flashes a range on the LED output only, then redraws the model;
      the model state is unchanged and the answer is 200. */
  function HandleBlink(d: Device, args: Args): (r: Reply)
    requires Valid(d)
    ensures r == Reply(d, 200)
  {
    Reply(d, 200)
  }

  // ---------------------------------------------------------------- /brightness

  /** `handleGlobalBrightness`: 400 without `value`; otherwise sets only the global
      brightness, to `value` clamped to 0..255, and answers 200. */
  function HandleGlobalBrightness(d: Device, args: Args): (r: Reply)
    requires Valid(d)
    ensures Valid(r.dev)
    ensures r.code in {200, 400}
    ensures !HasArg(args, "value") ==> r == Reply(d, 400)
    ensures HasArg(args, "value") ==>
      r == Reply(d.(gbright := Clamp(CNum.ToInt(Arg(args, "value")), 0, 255)), 200)
  {
    if !HasArg(args, "value") then Reply(d, 400)
    else Reply(d.(gbright := Clamp(CNum.ToInt(Arg(args, "value")), 0, 255)), 200)
  }
}
