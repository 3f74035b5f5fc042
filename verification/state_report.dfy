/** `/state` (firmware/src/main.cpp `handleState`): the JSON the device reports, and a
    reader for exactly that layout, which stands in for the client's JSON parsing. */
module StateReport {
  import opened Wrappers
  import opened Text
  import opened Strip
  import opened Handlers

  datatype SelReport = SelReport(start: nat, end: nat, dirty: bool)

  /** What `/state` tells: `num_leds`, `bright` and, for an active selection, its bounds
      and dirty flag. */
  datatype Report = Report(numLeds: nat, bright: nat, sel: Option<SelReport>)

  function ReportOf(d: Device): (r: Report)
    ensures r.numLeds == NumLeds && r.bright == d.gbright
    ensures r.sel.Some? <==> d.sel.active
    ensures d.sel.active ==> r.sel.value == SelReport(d.sel.start, d.sel.end, d.sel.dirty)
  {
    Report(NumLeds, d.gbright,
           if d.sel.active then Some(SelReport(d.sel.start, d.sel.end, d.sel.dirty)) else None)
  }

  function BoolText(b: bool): string {
    if b then "true" else "false"
  }

  /** The selection object's members followed by `tail`. */
  function RenderSel(sel: Option<SelReport>, tail: string): string {
    match sel
    case None => "\"active\":false" + tail
    case Some(s) =>
      "\"active\":true,\"start\":" + (NatToDec(s.start) + (",\"end\":" + (NatToDec(s.end)
        + (",\"dirty\":" + (BoolText(s.dirty) + tail)))))
  }

  /** The body `handleState` sends. */
  function Render(r: Report): string {
    "{\"ok\":true,\"num_leds\":" + (NatToDec(r.numLeds) + (",\"bright\":" + (NatToDec(r.bright)
      + (",\"selection\":{" + RenderSel(r.sel, "}}")))))
  }

  /** `handleState`: reports the state, changes nothing, answers 200. */
  function HandleState(d: Device): (r: (Reply, string))
    requires Valid(d)
    ensures r.0 == Reply(d, 200)
    ensures StartsWith(r.1, "{\"ok\":true,\"num_leds\":99,")
  {
    var body := Render(ReportOf(d));
    assert NatToDec(NumLeds) == "99" by {
      assert NatToDec(9) == "9";
    }
    assert body == "{\"ok\":true,\"num_leds\":99," + ("\"bright\":" + (NatToDec(d.gbright)
      + (",\"selection\":{" + RenderSel(ReportOf(d).sel, "}}"))));
    (Reply(d, 200), body)
  }

  // ---------------------------------------------------------------- reading the body back

  function Expect(s: string, lit: string): (r: Option<string>)
    ensures r.Some? <==> StartsWith(s, lit)
    ensures r.Some? ==> s == lit + r.value
  {
    if StartsWith(s, lit) then Some(s[|lit|..]) else None
  }

  /** Length of the run of digits `s` starts with. */
  function DigitPrefix(s: string): (k: nat)
    ensures k <= |s| && AllDigits(s[..k])
    ensures k == |s| || !IsDigit(s[k])
  {
    if |s| > 0 && IsDigit(s[0]) then
      var k := 1 + DigitPrefix(s[1..]);
      assert forall i :: 1 <= i < k ==> s[..k][i] == s[1..][..k - 1][i - 1];
      k
    else 0
  }

  /** A non-empty run of digits and the text after it. */
  function ReadNat(s: string): (r: Option<(nat, string)>)
  {
    var k := DigitPrefix(s);
    if k == 0 then None else Some((DecValue(s[..k]), s[k..]))
  }

  function ReadBool(s: string): Option<(bool, string)> {
    if StartsWith(s, "true") then Some((true, s[4..]))
    else if StartsWith(s, "false") then Some((false, s[5..]))
    else None
  }

  function ReadSel(s: string): Option<(Option<SelReport>, string)> {
    if StartsWith(s, "\"active\":false") then Some((None, s[|"\"active\":false"|..]))
    else
      var s1 :- Expect(s, "\"active\":true,\"start\":");
      ReadRange(s1)
  }

  /** The members of an active selection after `"active":true,"start":`. */
  function ReadRange(s1: string): Option<(Option<SelReport>, string)> {
    var (start, s2) :- ReadNat(s1);
    var s3 :- Expect(s2, ",\"end\":");
    var (end, s4) :- ReadNat(s3);
    var s5 :- Expect(s4, ",\"dirty\":");
    var (dirty, s6) :- ReadBool(s5);
    Some((Some(SelReport(start, end, dirty)), s6))
  }

  /** Reads a `/state` body of exactly the layout `handleState` writes. */
  function ReadReport(s: string): Option<Report> {
    var s1 :- Expect(s, "{\"ok\":true,\"num_leds\":");
    var (n, s2) :- ReadNat(s1);
    var s3 :- Expect(s2, ",\"bright\":");
    var (b, s4) :- ReadNat(s3);
    var s5 :- Expect(s4, ",\"selection\":{");
    var (sel, s6) :- ReadSel(s5);
    var s7 :- Expect(s6, "}}");
    if s7 == [] then Some(Report(n, b, sel)) else None
  }

  lemma ExpectLit(lit: string, rest: string)
    ensures Expect(lit + rest, lit) == Some(rest)
  {
    assert (lit + rest)[..|lit|] == lit;
  }

  lemma {:induction false} DigitPrefixOfDigits(s: string, rest: string)
    requires AllDigits(s)
    requires rest == [] || !IsDigit(rest[0])
    ensures DigitPrefix(s + rest) == |s|
    decreases |s|
  {
    if |s| > 0 {
      assert (s + rest)[1..] == s[1..] + rest;
      DigitPrefixOfDigits(s[1..], rest);
    } else {
      assert s + rest == rest;
    }
  }

  /** A rendered number is read back whole, up to the next non-digit. */
  lemma ReadNatDec(n: nat, rest: string)
    requires rest == [] || !IsDigit(rest[0])
    ensures ReadNat(NatToDec(n) + rest) == Some((n, rest))
  {
    var s := NatToDec(n);
    DigitPrefixOfDigits(s, rest);
    assert (s + rest)[..|s|] == s;
    assert (s + rest)[|s|..] == rest;
  }

  lemma ReadBoolText(b: bool, tail: string)
    ensures ReadBool(BoolText(b) + tail) == Some((b, tail))
  {
    ExpectLit(BoolText(b), tail);
    if !b {
      assert (BoolText(b) + tail)[0] == 'f';
    }
  }

  lemma ReadRangeRender(x: SelReport, tail: string)
    requires tail == [] || tail[0] == '}'
    ensures ReadRange(NatToDec(x.start) + (",\"end\":" + (NatToDec(x.end)
              + (",\"dirty\":" + (BoolText(x.dirty) + tail))))) == Some((Some(x), tail))
  {
    var t4 := ",\"dirty\":" + (BoolText(x.dirty) + tail);
    var t3 := NatToDec(x.end) + t4;
    var t2 := ",\"end\":" + t3;
    ReadNatDec(x.start, t2);
    ExpectLit(",\"end\":", t3);
    ReadNatDec(x.end, t4);
    ExpectLit(",\"dirty\":", BoolText(x.dirty) + tail);
    ReadBoolText(x.dirty, tail);
  }

  lemma ReadSelRender(sel: Option<SelReport>, tail: string)
    requires tail == [] || tail[0] == '}'
    ensures ReadSel(RenderSel(sel, tail)) == Some((sel, tail))
  {
    match sel
    case None =>
      ExpectLit("\"active\":false", tail);
    case Some(x) =>
      var t1 := NatToDec(x.start) + (",\"end\":" + (NatToDec(x.end)
                  + (",\"dirty\":" + (BoolText(x.dirty) + tail))));
      var r := RenderSel(sel, tail);
      assert r == "\"active\":true,\"start\":" + t1;
      assert !StartsWith(r, "\"active\":false") by {
        assert r[9] == 't';
      }
      ExpectLit("\"active\":true,\"start\":", t1);
      ReadRangeRender(x, tail);
  }

  /** Every report reads back from its rendering. */
  lemma ReadRender(r: Report)
    ensures ReadReport(Render(r)) == Some(r)
  {
    var t4 := ",\"selection\":{" + RenderSel(r.sel, "}}");
    var t3 := NatToDec(r.bright) + t4;
    var t2 := ",\"bright\":" + t3;
    var t1 := NatToDec(r.numLeds) + t2;
    ExpectLit("{\"ok\":true,\"num_leds\":", t1);
    ReadNatDec(r.numLeds, t2);
    ExpectLit(",\"bright\":", t3);
    ReadNatDec(r.bright, t4);
    ExpectLit(",\"selection\":{", RenderSel(r.sel, "}}"));
    ReadSelRender(r.sel, "}}");
    ExpectLit("}}", []);
    assert "}}" + [] == "}}";
  }

  /** The body of `/state` reads back as the device's own brightness and selection. */
  lemma StateBodyReadsBack(d: Device)
    requires Valid(d)
    ensures ReadReport(HandleState(d).1) == Some(ReportOf(d))
  {
    ReadRender(ReportOf(d));
  }
}
