/** The preview life cycle of the firmware as a whole: claim a range with `/select`, send
    any number of previews, then `/cancel` or `/save`. */
module Preview {
  import opened Wrappers
  import opened Text
  import opened Strip
  import opened Handlers
  import opened Storage

  /** A request that may arrive while a selection is held and does not end it. */
  datatype Op =
    | SetColor(args: Args)
    | SetLocal(args: Args)
    | SetGlobal(args: Args)
    | Blink(args: Args)
    | State

  function Apply(d: Device, op: Op): (r: Reply)
    requires Valid(d)
    ensures Valid(r.dev)
  {
    match op
    case SetColor(a) => HandleSetPreview(d, a)
    case SetLocal(a) => HandleLocalBrightness(d, a)
    case SetGlobal(a) => HandleGlobalBrightness(d, a)
    case Blink(a) => HandleBlink(d, a)
    case State => Reply(d, 200)
  }

  /** The state after handling `ops` in order, whatever each answers. */
  function Run(d: Device, ops: seq<Op>): (r: Device)
    requires Valid(d)
    ensures Valid(r)
    decreases |ops|
  {
    if |ops| == 0 then d else Run(Apply(d, ops[0]).dev, ops[1..])
  }

  /** `d` differs from `d0` at most by previews inside `d0`'s selection: the same
      selection and backup (the dirty flag aside) and the same arrays outside the range. */
  predicate PreviewOf(d0: Device, d: Device)
    requires Valid(d0) && Valid(d)
  {
    && SameSelection(d0, d)
    && forall i :: 0 <= i < NumLeds && !(d0.sel.start <= i <= d0.sel.end) ==>
         d.baseRGB[i] == d0.baseRGB[i] && d.localB[i] == d0.localB[i]
  }

  /** Previews never move the selection, touch its backup or reach outside its range. */
  lemma {:induction false} RunIsPreview(d0: Device, d: Device, ops: seq<Op>)
    requires Valid(d0) && Valid(d) && d0.sel.active && PreviewOf(d0, d)
    ensures PreviewOf(d0, Run(d, ops))
    decreases |ops|
  {
    if |ops| > 0 {
      var d1 := Apply(d, ops[0]).dev;
      assert PreviewOf(d0, d1);
      RunIsPreview(d0, d1, ops[1..]);
    }
  }

  /** Cancelling a preview of a selection whose backup matched its arrays gives back
      those arrays. */
  lemma CancelUndoesPreview(d0: Device, d: Device)
    requires Valid(d0) && Valid(d) && d0.sel.active && BackupMatches(d0) && PreviewOf(d0, d)
    ensures HandleCancel(d).dev.baseRGB == d0.baseRGB && HandleCancel(d).dev.localB == d0.localB
  {
    var r := HandleCancel(d).dev;
    assert forall i :: 0 <= i < NumLeds ==> r.baseRGB[i] == d0.baseRGB[i] && r.localB[i] == d0.localB[i];
  }

  /** Cancel rolls back every preview since the select: claiming a range, handling any
      previews, then cancelling leaves the arrays as `createSelection` found them (an
      earlier dirty selection rolled back), with no selection held. */
  lemma SelectPreviewCancel(d: Device, args: Args, ops: seq<Op>)
    requires Valid(d)
    requires HandleSelect(d, args, true).code == 200
    ensures var r := HandleCancel(Run(HandleSelect(d, args, true).dev, ops));
      && r.code == 200 && !r.dev.sel.active && !r.dev.sel.dirty
      && r.dev.baseRGB == Release(d).baseRGB && r.dev.localB == Release(d).localB
  {
    var d0 := HandleSelect(d, args, true).dev;
    var dn := Run(d0, ops);
    RunIsPreview(d0, d0, ops);
    CancelUndoesPreview(d0, dn);
  }

  /** From a state without a dirty selection, select, previews and cancel give back
      exactly the arrays there were before. */
  lemma SelectPreviewCancelRestores(d: Device, args: Args, ops: seq<Op>)
    requires Valid(d) && !d.sel.dirty
    requires HandleSelect(d, args, true).code == 200
    ensures var r := HandleCancel(Run(HandleSelect(d, args, true).dev, ops)).dev;
      r.baseRGB == d.baseRGB && r.localB == d.localB
  {
    SelectPreviewCancel(d, args, ops);
  }

  /** A save makes the preview permanent: a cancel right after it has no selection to
      roll back, so the arrays keep the previewed values. */
  lemma SaveThenCancelKeepsPreview(d: Device)
    requires Valid(d)
    ensures var r := HandleCancel(HandleSave(d, Written).reply.dev);
      && r.code == 200 && !r.dev.sel.active
      && r.dev.baseRGB == d.baseRGB && r.dev.localB == d.localB
  {
  }
}
