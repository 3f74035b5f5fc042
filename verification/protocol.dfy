/** The three programs together: what the device does with the requests the main screen
    and `LedApi` send, and whether the main screen's selection flags track the device's
    selection. A URL's request target is everything after the base address (the base has
    no path of its own); the web server splits it into arguments as `Query.Args` does. */
module Protocol {
  import opened Wrappers
  import opened Text
  import opened Strip
  import opened Handlers
  import Storage
  import StateReport
  import Query
  import CNum
  import ClientText
  import Session
  import LedApi

  // ---------------------------------------------------------------- what the device receives

  /** The arguments the device's handler sees for a request of the main screen. */
  function Received(req: Session.Request): Args {
    Query.Args(ClientText.Target(req.path, req.params))
  }

  /** The arguments the device's handler sees for `LedApi`'s `url(path)`. */
  function ReceivedFromApi(path: string): Args {
    Query.Args("/" + path)
  }

  predicate AllUnreserved(s: string) {
    forall k :: 0 <= k < |s| ==> ClientText.Unreserved(s[k])
  }

  /** The argument found under `name` is the first one with that name. */
  lemma ArgAt(args: Args, name: string, i: nat)
    requires i < |args| && args[i].0 == name
    requires forall j :: 0 <= j < i ==> args[j].0 != name
    ensures HasArg(args, name) && Arg(args, name) == args[i].1
  {
    assert HasArg(args, name);
  }

  /** Decimal numbers need no escaping in a query. */
  lemma DecUnreserved(i: int)
    ensures AllUnreserved(IntToDec(i))
    ensures '&' !in IntToDec(i) && '=' !in IntToDec(i)
  {
    var s := IntToDec(i);
    if i < 0 {
      assert forall k :: 1 <= k < |s| ==> s[k] == s[1..][k - 1];
    }
    assert forall k :: 0 <= k < |s| ==> ClientText.Unreserved(s[k]);
  }

  /** Parameters made only of characters `URLEncoder` keeps reach the device as they
      were given. */
  lemma ReceivedUnreserved(path: string, params: seq<Query.Pair>)
    requires '?' !in path
    requires forall i :: 0 <= i < |params| ==> AllUnreserved(params[i].0) && AllUnreserved(params[i].1)
    ensures Query.Args(ClientText.Target(path, params)) == params
  {
    ClientText.TargetArgs(path, params);
    var enc := ClientText.EncodePairs(params);
    forall i | 0 <= i < |params|
      ensures enc[i] == params[i]
    {
      assert AllUnreserved(params[i].0) && AllUnreserved(params[i].1);
    }
    assert enc == params;
  }

  /** The argument names and the constant values the clients send. */
  lemma NamesUnreserved()
    ensures AllUnreserved("start") && AllUnreserved("end") && AllUnreserved("blink") && AllUnreserved("1")
    ensures AllUnreserved("hex") && AllUnreserved("lbright") && AllUnreserved("value")
  {
  }

  /** Characters `URLEncoder` keeps include neither query separator. */
  lemma UnreservedPlain(ps: seq<Query.Pair>)
    requires forall i :: 0 <= i < |ps| ==> AllUnreserved(ps[i].0) && AllUnreserved(ps[i].1)
    ensures Query.Plain(ps)
  {
    forall i | 0 <= i < |ps|
      ensures '&' !in ps[i].0 && '=' !in ps[i].0 && '&' !in ps[i].1
    {
      assert AllUnreserved(ps[i].0) && AllUnreserved(ps[i].1);
    }
  }

  /** A path `name?` followed by joined arguments reaches the device as those
      arguments. */
  lemma ApiArgs(path: string, name: string, ps: seq<Query.Pair>)
    requires '?' !in name && Query.Plain(ps)
    requires path == name + "?" + Query.Join(ps)
    ensures ReceivedFromApi(path) == ps
  {
    assert "/" + path == ("/" + name) + "?" + Query.Join(ps);
    Query.ArgsOfTarget("/" + name, ps);
  }

  // ---------------------------------------------------------------- the colour

  /** The hex text the main screen sends for a wheel colour parses back, on the device,
      to exactly that colour's three channels. */
  lemma HexRoundTrip(colorInt: i32)
    ensures ParseHexColor(ClientText.Hex(colorInt))
         == Some(RGB(ClientText.Channels(colorInt).0, ClientText.Channels(colorInt).1, ClientText.Channels(colorInt).2))
  {
    var h := ClientText.Hex(colorInt);
    var ch := ClientText.Channels(colorInt);
    ParseHexColorAcceptsSixHexDigits(h);
    assert HexByte(h[0], h[1]) == ch.0;
    assert HexByte(h[2], h[3]) == ch.1;
    assert HexByte(h[4], h[5]) == ch.2;
  }

  // ---------------------------------------------------------------- the main screen's requests

  /** A `/select` whose first two arguments are the decimal `start` and `end` claims,
      on a device with memory for the backup, their `uint16_t` conversions clamped. */
  lemma SelectOf(d: Device, args: Args, start: i32, end: i32, allocOk: bool)
    requires Valid(d)
    requires |args| >= 2 && args[0] == ("start", IntToDec(start)) && args[1] == ("end", IntToDec(end))
    ensures var r := HandleSelect(d, args, allocOk);
      && (r.code == 200 <==> allocOk)
      && (allocOk ==> (r.dev.sel.start, r.dev.sel.end) == ClampRange(ToU16(start), ToU16(end)))
  {
    ArgAt(args, "start", 0);
    ArgAt(args, "end", 1);
    CNum.ToIntOfIntToDec(start);
    CNum.ToIntOfIntToDec(end);
    assert RequestedRange(args) == ClampRange(ToU16(start), ToU16(end));
  }

  /** "Select and blink" sends the two field indices and `blink=1` unchanged. */
  lemma SelectClickReceived(startField: string, endField: string)
    ensures Received(Session.OnSelectClick(startField, endField))
         == [("start", IntToDec(ClientText.FieldIndex(startField))),
             ("end", IntToDec(ClientText.FieldIndex(endField))), ("blink", "1")]
  {
    var a := IntToDec(ClientText.FieldIndex(startField));
    var b := IntToDec(ClientText.FieldIndex(endField));
    var ps := [("start", a), ("end", b), ("blink", "1")];
    DecUnreserved(ClientText.FieldIndex(startField));
    DecUnreserved(ClientText.FieldIndex(endField));
    NamesUnreserved();
    assert forall i :: 0 <= i < |ps| ==> AllUnreserved(ps[i].0) && AllUnreserved(ps[i].1);
    ReceivedUnreserved("/select", ps);
  }

  /** "Select and blink" claims, on a device with memory for the backup, the range the
      two fields name, `uint16_t`-converted and clamped. */
  lemma ClientSelectClaims(d: Device, startField: string, endField: string, allocOk: bool)
    requires Valid(d)
    ensures var r := HandleSelect(d, Received(Session.OnSelectClick(startField, endField)), allocOk);
      && (r.code == 200 <==> allocOk)
      && (allocOk ==>
            (r.dev.sel.start, r.dev.sel.end)
              == ClampRange(ToU16(ClientText.FieldIndex(startField)), ToU16(ClientText.FieldIndex(endField))))
  {
    SelectClickReceived(startField, endField);
    SelectOf(d, Received(Session.OnSelectClick(startField, endField)),
             ClientText.FieldIndex(startField), ClientText.FieldIndex(endField), allocOk);
  }

  /** A wheel colour sent while the device holds a selection paints that range with the
      colour's channels; without a selection the device answers 409. */
  lemma ClientColorPaints(u: Session.Ui, d: Device, colorInt: i32)
    requires Valid(d) && u.active
    ensures Session.OnColorChange(u, colorInt).Some?
    ensures var r := HandleSetPreview(d, Received(Session.OnColorChange(u, colorInt).value));
      && (!d.sel.active ==> r.code == 409)
      && (d.sel.active ==> r.code == 200 && forall i :: d.sel.start <= i <= d.sel.end ==>
            r.dev.baseRGB[i] == RGB(ClientText.Channels(colorInt).0, ClientText.Channels(colorInt).1,
                                    ClientText.Channels(colorInt).2))
  {
    var args := Received(Session.OnColorChange(u, colorInt).value);
    ColorReceived(u, colorInt);
    ArgAt(args, "hex", 0);
    assert !HasArg(args, "lbright");
    HexRoundTrip(colorInt);
    if d.sel.active {
      var ch := ClientText.Channels(colorInt);
      SetOf(d, args, RGB(ch.0, ch.1, ch.2), None);
    }
  }

  /** The colour request reaches the device as its single `hex` argument. */
  lemma ColorReceived(u: Session.Ui, colorInt: i32)
    requires u.active
    ensures Received(Session.OnColorChange(u, colorInt).value) == [("hex", ClientText.Hex(colorInt))]
  {
    var req := Session.OnColorChange(u, colorInt).value;
    assert AllUnreserved(ClientText.Hex(colorInt));
    NamesUnreserved();
    assert '?' !in req.path;
    ReceivedUnreserved(req.path, req.params);
  }

  // ---------------------------------------------------------------- LedApi's requests

  /** `select` sends its arguments unchanged. */
  lemma ApiSelectReceived(start: i32, end: i32, blink: bool)
    ensures ReceivedFromApi(LedApi.SelectPath(start, end, blink)) == LedApi.SelectArgs(start, end, blink)
  {
    var ps := LedApi.SelectArgs(start, end, blink);
    var a, b := IntToDec(start), IntToDec(end);
    DecUnreserved(start);
    DecUnreserved(end);
    NamesUnreserved();
    if blink {
      assert ps == [("start", a), ("end", b), ("blink", "1")];
    } else {
      assert ps == [("start", a), ("end", b)];
    }
    assert forall i :: 0 <= i < |ps| ==> AllUnreserved(ps[i].0) && AllUnreserved(ps[i].1);
    UnreservedPlain(ps);
    assert LedApi.SelectPath(start, end, blink) == "select" + "?" + Query.Join(ps) by {
      assert "select?" == "select" + "?";
    }
    ApiArgs(LedApi.SelectPath(start, end, blink), "select", ps);
  }

  /** `select` claims, on a device with memory for the backup, the range it names,
      `uint16_t`-converted and clamped. */
  lemma ApiSelectClaims(d: Device, start: i32, end: i32, blink: bool, allocOk: bool)
    requires Valid(d)
    ensures var r := HandleSelect(d, ReceivedFromApi(LedApi.SelectPath(start, end, blink)), allocOk);
      && (r.code == 200 <==> allocOk)
      && (allocOk ==> (r.dev.sel.start, r.dev.sel.end) == ClampRange(ToU16(start), ToU16(end)))
  {
    ApiSelectReceived(start, end, blink);
    SelectOf(d, LedApi.SelectArgs(start, end, blink), start, end, allocOk);
  }

  /** Spaces around and a `#` before six hex digits are removed before sending. */
  lemma CleanHashHex(h: string)
    requires |h| == 6 && AllHexDigits(h)
    ensures LedApi.CleanHex("#" + h) == h
  {
    var s := "#" + h;
    assert s[0] == '#' && s[|s| - 1] == h[5];
    assert IsHexDigit(h[5]);
    assert !IsWhitespace(s[0]) && !IsWhitespace(s[|s| - 1]);
    TrimUnpadded(s);
    assert s[..1] == "#";
    assert s[1..] == h;
  }

  /** `setPreviewHex("#RRGGBB", lbright)` sends the six digits and, when given, the
      clamped brightness. */
  lemma ApiSetReceived(h: string, lbright: Option<int>)
    requires |h| == 6 && AllHexDigits(h)
    ensures lbright.None? ==> ReceivedFromApi(LedApi.SetPath("#" + h, lbright)) == [("hex", h)]
    ensures lbright.Some? ==> ReceivedFromApi(LedApi.SetPath("#" + h, lbright))
                              == [("hex", h), ("lbright", IntToDec(Clamp(lbright.value, 0, 255)))]
  {
    var ps := LedApi.SetArgs("#" + h, lbright);
    SetArgsPlain(h, lbright);
    assert LedApi.SetPath("#" + h, lbright) == "set" + "?" + Query.Join(ps) by {
      assert "set?" == "set" + "?";
    }
    ApiArgs(LedApi.SetPath("#" + h, lbright), "set", ps);
  }

  /** The arguments `setPreviewHex("#RRGGBB", lbright)` builds need no escaping. */
  lemma SetArgsPlain(h: string, lbright: Option<int>)
    requires |h| == 6 && AllHexDigits(h)
    ensures Query.Plain(LedApi.SetArgs("#" + h, lbright))
    ensures lbright.None? ==> LedApi.SetArgs("#" + h, lbright) == [("hex", h)]
    ensures lbright.Some? ==> LedApi.SetArgs("#" + h, lbright)
                              == [("hex", h), ("lbright", IntToDec(Clamp(lbright.value, 0, 255)))]
  {
    var ps := LedApi.SetArgs("#" + h, lbright);
    CleanHashHex(h);
    assert AllUnreserved(h) by {
      assert forall k :: 0 <= k < 6 ==> IsHexDigit(h[k]);
    }
    NamesUnreserved();
    if lbright.Some? {
      DecUnreserved(Clamp(lbright.value, 0, 255));
      assert ps == [("hex", h), ("lbright", IntToDec(Clamp(lbright.value, 0, 255)))];
    } else {
      assert ps == [("hex", h)];
    }
    assert forall i :: 0 <= i < |ps| ==> AllUnreserved(ps[i].0) && AllUnreserved(ps[i].1);
    UnreservedPlain(ps);
  }

  /** A `/set` whose `hex` parses to `c` and whose `lbright`, present exactly when
      `lbright` is given, reads as its clamped value paints an active selection with
      them. */
  lemma SetOf(d: Device, args: Args, c: RGB, lbright: Option<int>)
    requires Valid(d) && d.sel.active
    requires HasArg(args, "hex") && ParseHexColor(Arg(args, "hex")) == Some(c)
    requires HasArg(args, "lbright") <==> lbright.Some?
    requires lbright.Some? ==> CNum.ToInt(Arg(args, "lbright")) == Clamp(lbright.value, 0, 255)
    ensures var r := HandleSetPreview(d, args);
      && r.code == 200
      && forall i :: d.sel.start <= i <= d.sel.end ==>
           && r.dev.baseRGB[i] == c
           && r.dev.localB[i] == (if lbright.Some? then Clamp(lbright.value, 0, 255) else d.localB[i])
  {
  }

  /** `setPreviewHex("#RRGGBB", lbright)` on a device holding a selection paints the
      range with that colour and, when given, the clamped local brightness. */
  lemma ApiSetPaints(d: Device, h: string, lbright: Option<int>)
    requires Valid(d) && d.sel.active
    requires |h| == 6 && AllHexDigits(h)
    ensures var r := HandleSetPreview(d, ReceivedFromApi(LedApi.SetPath("#" + h, lbright)));
      && r.code == 200
      && forall i :: d.sel.start <= i <= d.sel.end ==>
           && r.dev.baseRGB[i] == HexColor(h)
           && r.dev.localB[i] == (if lbright.Some? then Clamp(lbright.value, 0, 255) else d.localB[i])
  {
    var ps := ReceivedFromApi(LedApi.SetPath("#" + h, lbright));
    ApiSetArgsRead(h, lbright);
    ParseHexColorAcceptsSixHexDigits(h);
    SetOf(d, ps, HexColor(h), lbright);
  }

  /** What `handleSetPreview` reads from `setPreviewHex("#RRGGBB", lbright)`. */
  lemma ApiSetArgsRead(h: string, lbright: Option<int>)
    requires |h| == 6 && AllHexDigits(h)
    ensures var ps := ReceivedFromApi(LedApi.SetPath("#" + h, lbright));
      && HasArg(ps, "hex") && Arg(ps, "hex") == h
      && (HasArg(ps, "lbright") <==> lbright.Some?)
      && (lbright.Some? ==> CNum.ToInt(Arg(ps, "lbright")) == Clamp(lbright.value, 0, 255))
  {
    ApiSetReceived(h, lbright);
    var ps := ReceivedFromApi(LedApi.SetPath("#" + h, lbright));
    match lbright
    case None =>
      assert ps == [("hex", h)];
      SetArgsAt(ps, h, None);
    case Some(v) =>
      var lb := IntToDec(Clamp(v, 0, 255));
      assert ps == [("hex", h), ("lbright", lb)];
      SetArgsAt(ps, h, Some(lb));
      CNum.ToIntOfIntToDec(Clamp(v, 0, 255));
  }

  /** How the handler reads the one or two arguments of a `/set`. */
  lemma SetArgsAt(ps: Args, h: string, lb: Option<string>)
    requires ps == [("hex", h)] + (if lb.Some? then [("lbright", lb.value)] else [])
    ensures HasArg(ps, "hex") && Arg(ps, "hex") == h
    ensures HasArg(ps, "lbright") <==> lb.Some?
    ensures lb.Some? ==> Arg(ps, "lbright") == lb.value
  {
    ArgAt(ps, "hex", 0);
    if lb.Some? {
      ArgAt(ps, "lbright", 1);
    } else {
      assert !HasArg(ps, "lbright");
    }
  }

  /** `setGlobalBrightness(v)` sets exactly the global brightness, to `v` clamped. */
  lemma ApiGlobalBrightness(d: Device, v: int)
    requires Valid(d)
    ensures HandleGlobalBrightness(d, ReceivedFromApi(LedApi.ValuePath("brightness", v)))
         == Reply(d.(gbright := Clamp(v, 0, 255)), 200)
  {
    var ps := [("value", IntToDec(Clamp(v, 0, 255)))];
    DecUnreserved(Clamp(v, 0, 255));
    ApiArgs(LedApi.ValuePath("brightness", v), "brightness", ps);
    ArgAt(ps, "value", 0);
    CNum.ToIntOfIntToDec(Clamp(v, 0, 255));
  }

  /** `setLocalBrightness(v)` on a device holding a selection sets the range's local
      brightness to `v` clamped. */
  lemma ApiLocalBrightness(d: Device, v: int)
    requires Valid(d) && d.sel.active
    ensures var r := HandleLocalBrightness(d, ReceivedFromApi(LedApi.ValuePath("lbright", v)));
      r.code == 200 && forall i :: d.sel.start <= i <= d.sel.end ==> r.dev.localB[i] == Clamp(v, 0, 255)
  {
    var ps := [("value", IntToDec(Clamp(v, 0, 255)))];
    DecUnreserved(Clamp(v, 0, 255));
    ApiArgs(LedApi.ValuePath("lbright", v), "lbright", ps);
    ArgAt(ps, "value", 0);
    CNum.ToIntOfIntToDec(Clamp(v, 0, 255));
  }

  // ---------------------------------------------------------------- flag agreement

  /** The main screen's flags say what the device's selection is. */
  predicate Agree(u: Session.Ui, d: Device) {
    u.active == d.sel.active && u.dirty == d.sel.dirty
  }

  function Answer(code: int): ClientText.HttpOutcome {
    ClientText.Response(code)
  }

  /** A select the device answers with 200 or 400 keeps the flags in step. */
  lemma SelectKeepsAgreement(u: Session.Ui, d: Device, args: Args, allocOk: bool)
    requires Valid(d) && Agree(u, d)
    ensures var r := HandleSelect(d, args, allocOk);
      r.code != 500 ==> Agree(Session.OnResult(u, Session.Select, Answer(r.code)), r.dev)
  {
  }

  /** A select that fails for want of memory has already dropped the device's previous
      selection, but the main screen, seeing an error, still shows it as active. */
  lemma FailedSelectDesync(u: Session.Ui, d: Device, args: Args)
    requires Valid(d) && Agree(u, d) && d.sel.active
    requires HasArg(args, "start") && HasArg(args, "end")
    ensures var r := HandleSelect(d, args, false);
      && r.code == 500 && !r.dev.sel.active
      && Session.OnResult(u, Session.Select, Answer(r.code)).active
  {
  }

  /** Whatever the device answers, a colour or brightness preview keeps the flags in
      step. */
  lemma PreviewKeepsAgreement(u: Session.Ui, d: Device, args: Args)
    requires Valid(d) && Agree(u, d)
    ensures var r := HandleSetPreview(d, args);
      Agree(Session.OnResult(u, Session.SetColor, Answer(r.code)), r.dev)
    ensures var r := HandleLocalBrightness(d, args);
      Agree(Session.OnResult(u, Session.SetLocal, Answer(r.code)), r.dev)
    ensures var r := HandleGlobalBrightness(d, args);
      Agree(Session.OnResult(u, Session.SetGlobal, Answer(r.code)), r.dev)
  {
  }

  /** Cancel and load keep the flags in step, whatever the load answers. */
  lemma CancelAndLoadKeepAgreement(u: Session.Ui, d: Device, file: Option<seq<byte>>)
    requires Valid(d) && Agree(u, d)
    ensures var r := HandleCancel(d);
      Agree(Session.OnResult(u, Session.Cancel, Answer(r.code)), r.dev)
    ensures var r := Storage.HandleLoad(d, file);
      Agree(Session.OnResult(u, Session.Load, Answer(r.code)), r.dev)
  {
  }

  /** A successful save frees the device's selection, but the main screen keeps showing
      it as active; the colour it then sends is refused with 409. A failed save keeps
      the flags in step. */
  lemma SaveDesync(u: Session.Ui, d: Device, w: Storage.WriteOutcome, colorInt: i32)
    requires Valid(d) && Agree(u, d) && d.sel.active
    ensures var r := Storage.HandleSave(d, w).reply;
      var u2 := Session.OnResult(u, Session.Save, Answer(r.code));
      && (w != Storage.Written ==> Agree(u2, r.dev))
      && (w == Storage.Written ==>
            && u2.active && !r.dev.sel.active
            && Session.OnColorChange(u2, colorInt).Some?
            && HandleSetPreview(r.dev, Received(Session.OnColorChange(u2, colorInt).value)).code == 409)
  {
    var r := Storage.HandleSave(d, w).reply;
    var u2 := Session.OnResult(u, Session.Save, Answer(r.code));
    if w == Storage.Written {
      ClientColorPaints(u2, r.dev, colorInt);
    }
  }

  /** A debounced preview whose job is cancelled by the next `submit` while its request
      is under way: the device still applies it, but `withContext` ends in a
      cancellation, which `runCatching` hands to `onFailure`. A clean selection is then
      dirty on the device and clean on the screen until the next completed preview or
      refresh. */
  lemma CancelledPreviewDesync(u: Session.Ui, d: Device, args: Args)
    requires Valid(d) && Agree(u, d) && d.sel.active && !d.sel.dirty
    ensures var r := HandleLocalBrightness(d, args);
      var u2 := Session.OnResult(u, Session.SetLocal, ClientText.Raised);
      HasArg(args, "value") ==> r.code == 200 && r.dev.sel.dirty && u2.active && !u2.dirty
    ensures var r := HandleSetPreview(d, args);
      var u2 := Session.OnResult(u, Session.SetColor, ClientText.Raised);
      r.code == 200 ==> r.dev.sel.dirty && u2.active && !u2.dirty
  {
  }

  /** `refreshState` against the device's `/state` answer brings the flags, LED count
      and global brightness into line with the device. */
  lemma RefreshAgrees(u: Session.Ui, d: Device)
    requires Valid(d)
    ensures var u2 := Session.Refresh(u, StateReport.ReadReport(StateReport.HandleState(d).1));
      && Agree(u2, d) && u2.numLeds == Some(NumLeds) && u2.globalBright == d.gbright
  {
    StateReport.StateBodyReadsBack(d);
  }
}
