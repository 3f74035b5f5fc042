/** The main screen's optimistic view of the device
    (android/app/src/main/java/com/example/ledctrl/MainActivity.kt): the
    `selectionActive`/`selectionDirty` flags, which are advanced only in `onSuccess`
    callbacks, the requests the buttons, colour wheel and sliders send, and
    `refreshState`. Compose plumbing and the wording of `statusText` are left out. */
module Session {
  import opened Wrappers
  import opened Text
  import opened ClientText
  import Query
  import StateReport
  import CNum

  /** The request a callback answers. */
  datatype Command = Select | Cancel | Save | Load | SetColor | SetLocal | SetGlobal

  /** What `statusText` reports, without its wording. */
  datatype Status = Unknown | Done(cmd: Command) | Refreshed | Failed

  /** `selectionActive`, `selectionDirty`, `numLeds`, `globalBright` (rounded) and
      `statusText`. */
  datatype Ui = Ui(active: bool, dirty: bool, numLeds: Option<nat>, globalBright: int, status: Status)

  /** The screen before the first refresh. */
  const Start := Ui(false, false, None, 128, Unknown)

  /** The flags a successful `cmd` leaves: select claims a clean selection, cancel and
      load drop it, save clears only the dirty flag, a colour or local-brightness preview
      sets only the dirty flag, global brightness touches neither. */
  function OnSuccess(u: Ui, cmd: Command): (r: Ui)
    ensures r.numLeds == u.numLeds && r.globalBright == u.globalBright && r.status == Done(cmd)
    ensures cmd == Select ==> r.active && !r.dirty
    ensures cmd in {Cancel, Load} ==> !r.active && !r.dirty
    ensures cmd == Save ==> r.active == u.active && !r.dirty
    ensures cmd in {SetColor, SetLocal} ==> r.active == u.active && r.dirty
    ensures cmd == SetGlobal ==> r.active == u.active && r.dirty == u.dirty
  {
    match cmd
    case Select => u.(active := true, dirty := false, status := Done(cmd))
    case Cancel => u.(active := false, dirty := false, status := Done(cmd))
    case Load => u.(active := false, dirty := false, status := Done(cmd))
    case Save => u.(dirty := false, status := Done(cmd))
    case SetColor => u.(dirty := true, status := Done(cmd))
    case SetLocal => u.(dirty := true, status := Done(cmd))
    case SetGlobal => u.(status := Done(cmd))
  }

  /** A `runCatching { httpGet(...) }` for `cmd` completing: `onSuccess` on a 2xx
      response, otherwise `onFailure`, which only shows the error. */
  function OnResult(u: Ui, cmd: Command, o: HttpOutcome): (r: Ui)
    ensures !Succeeded(o) ==> r == u.(status := Failed)
    ensures Succeeded(o) ==> r == OnSuccess(u, cmd)
  {
    if Succeeded(o) then OnSuccess(u, cmd) else u.(status := Failed)
  }

  /** A failed request, whatever it was, changes neither flag. */
  lemma FailureKeepsFlags(u: Ui, cmd: Command, o: HttpOutcome)
    requires !Succeeded(o)
    ensures OnResult(u, cmd, o).active == u.active && OnResult(u, cmd, o).dirty == u.dirty
  {
  }

  /** Select then cancel, both succeeding, leaves no selection; select, a colour preview
      and a save, all succeeding, leave a clean active selection. */
  lemma SelectCancelAndSelectPreviewSave(u: Ui, ok1: HttpOutcome, ok2: HttpOutcome, ok3: HttpOutcome)
    requires Succeeded(ok1) && Succeeded(ok2) && Succeeded(ok3)
    ensures var c := OnResult(OnResult(u, Select, ok1), Cancel, ok2);
      !c.active && !c.dirty
    ensures var s := OnResult(OnResult(OnResult(u, Select, ok1), SetColor, ok2), Save, ok3);
      s.active && !s.dirty
  {
  }

  // ---------------------------------------------------------------- what the screen sends

  datatype Request = Request(path: string, params: seq<Query.Pair>)

  /** The colour wheel's `onChange`: a `/set` preview in hex, submitted to the colour
      debouncer only while a selection is active. `colorInt` is the colour whose `hex` the
      callback captured when it was created, not necessarily the one just picked. */
  function OnColorChange(u: Ui, colorInt: i32): (r: Option<Request>)
    ensures r.Some? <==> u.active
    ensures r.Some? ==> r.value.path == "/set" && r.value.params == [("hex", Hex(colorInt))]
  {
    if u.active then Some(Request("/set", [("hex", Hex(colorInt))])) else None
  }

  /** The local-brightness slider: a `/lbright` request with the rounded slider value,
      submitted only while a selection is active. */
  function OnLocalSlider(u: Ui, value: int): (r: Option<Request>)
    ensures r.Some? <==> u.active
    ensures r.Some? ==> r.value == Request("/lbright", [("value", IntToDec(value))])
  {
    if u.active then Some(Request("/lbright", [("value", IntToDec(value))])) else None
  }

  /** The global-brightness slider: shows the value at once and always submits a
      `/brightness` request. */
  function OnGlobalSlider(u: Ui, value: int): (r: (Ui, Request))
    ensures r.0 == u.(globalBright := value)
    ensures r.1 == Request("/brightness", [("value", IntToDec(value))])
  {
    (u.(globalBright := value), Request("/brightness", [("value", IntToDec(value))]))
  }

  /** "Select and blink": the two fields as indices (`toIntOrNull() ?: 0`) and
      `blink=1`. */
  function OnSelectClick(startField: string, endField: string): (r: Request)
    ensures r.path == "/select"
    ensures r.params == [("start", IntToDec(FieldIndex(startField))),
                         ("end", IntToDec(FieldIndex(endField))), ("blink", "1")]
    ensures CNum.ToInt(r.params[0].1) == FieldIndex(startField)
    ensures CNum.ToInt(r.params[1].1) == FieldIndex(endField)
  {
    var s := FieldIndex(startField);
    var e := FieldIndex(endField);
    CNum.ToIntOfIntToDec(s);
    CNum.ToIntOfIntToDec(e);
    Request("/select", [("start", IntToDec(s)), ("end", IntToDec(e)), ("blink", "1")])
  }

  /** The Cancel button, enabled only while a selection is active. */
  function OnCancelClick(u: Ui): (r: Option<Request>)
    ensures r.Some? <==> u.active
    ensures r.Some? ==> r.value == Request("/cancel", [])
  {
    if u.active then Some(Request("/cancel", [])) else None
  }

  /** The Save button, enabled only while the selection is dirty. */
  function OnSaveClick(u: Ui): (r: Option<Request>)
    ensures r.Some? <==> u.dirty
    ensures r.Some? ==> r.value == Request("/save", [])
  {
    if u.dirty then Some(Request("/save", [])) else None
  }

  // ---------------------------------------------------------------- refreshState

  /** `refreshState`: on a readable `/state` body, takes `num_leds` (when not negative),
      `bright` and the selection flags from it (a flag missing from the body reads
      false); on any failure only shows the error. */
  function Refresh(u: Ui, report: Option<StateReport.Report>): (r: Ui)
    ensures report.None? ==> r == u.(status := Failed)
    ensures report.Some? ==>
      && r.active == report.value.sel.Some?
      && r.dirty == (report.value.sel.Some? && report.value.sel.value.dirty)
      && r.numLeds == Some(report.value.numLeds)
      && r.globalBright == report.value.bright
      && r.status == Refreshed
  {
    match report
    case None => u.(status := Failed)
    case Some(rep) =>
      Ui(rep.sel.Some?, rep.sel.Some? && rep.sel.value.dirty, Some(rep.numLeds), rep.bright, Refreshed)
  }
}
