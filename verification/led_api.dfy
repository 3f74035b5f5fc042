/** The `LedApi` request builder (android/app/src/main/java/com/example/ledctrl/net/Api.kt):
    the base address it derives from user input, the URL of each endpoint, and what each
    call returns and writes to `RequestBus.last`. `java.net.URI` parsing and the HTTP
    transport are parameters. */
module LedApi {
  import opened Wrappers
  import opened Text
  import ClientText
  import Query

  // ---------------------------------------------------------------- the base address

  /** What `java.net.URI` reports about a parsed address (`port` is -1 when absent). */
  datatype Uri = Uri(scheme: Option<string>, host: Option<string>, authority: Option<string>, port: int)

  /** The `IllegalArgumentException`s the constructor throws. */
  datatype AddressError = BadAddress(input: string) | NoHost

  /** Prepends `http://` unless the text already starts with `http://` or `https://`. */
  function WithScheme(t: string): (r: string)
    ensures ClientText.HasScheme(r)
    ensures ClientText.HasScheme(t) ==> r == t
    ensures !ClientText.HasScheme(t) ==> r == ClientText.Http + t
  {
    if ClientText.HasScheme(t) then t
    else
      assert (ClientText.Http + t)[..|ClientText.Http|] == ClientText.Http;
      ClientText.Http + t
  }

  /** The base for a parsed address: the scheme (`http` when absent), the host (the
      authority when there is no host) and `:port` when the address has one. */
  function BaseOf(u: Uri): (r: Result<string, AddressError>)
    ensures u.host.None? && u.authority.None? <==> r == Failure(NoHost)
    ensures r.Success? ==>
      var prefix := u.scheme.GetOr("http") + "://" + (if u.host.Some? then u.host.value else u.authority.value);
      && StartsWith(r.value, prefix)
      && (u.port == -1 <==> r.value == prefix)
      && (u.port != -1 ==> r.value == prefix + ":" + IntToDec(u.port))
  {
    if u.host.None? && u.authority.None? then Failure(NoHost)
    else
      var prefix := u.scheme.GetOr("http") + "://" + (if u.host.Some? then u.host.value else u.authority.value);
      if u.port == -1 then
        assert prefix[..|prefix|] == prefix;
        Success(prefix)
      else
        var b := prefix + ":" + IntToDec(u.port);
        assert b[..|prefix|] == prefix;
        assert |b| > |prefix|;
        Success(b)
  }

  /** The constructor: trims the input, adds a scheme when missing and parses it
      (`parse` returns `None` where `URI` throws), then takes the base of the parsed
      address. */
  function MakeBase(baseInput: string, parse: string -> Option<Uri>): (r: Result<string, AddressError>)
    ensures parse(WithScheme(Trim(baseInput))).None? ==> r == Failure(BadAddress(baseInput))
    ensures parse(WithScheme(Trim(baseInput))).Some? ==> r == BaseOf(parse(WithScheme(Trim(baseInput))).value)
  {
    match parse(WithScheme(Trim(baseInput)))
    case None => Failure(BadAddress(baseInput))
    case Some(u) => BaseOf(u)
  }

  /** The main screen's `normalizeBaseUrl` adds the scheme by the same rule as the
      constructor and then drops trailing slashes. */
  lemma NormalizeIsWithScheme(s: string)
    ensures ClientText.NormalizeBaseUrl(s) == TrimEnd(WithScheme(Trim(s)), '/')
  {
  }

  /** `url(path)`: the base, a `/`, and the path without one leading `/`. */
  function Url(base: string, path: string): (u: string)
    ensures StartsWith(path, "/") ==> u == base + path
    ensures !StartsWith(path, "/") ==> u == base + "/" + path
  {
    base + "/" + RemovePrefix(path, "/")
  }

  /** A leading `/` on a path makes no difference, unless the path already had one. */
  lemma UrlLeadingSlash(base: string, p: string)
    ensures Url(base, "/" + p) == Url(base, p) <==> !StartsWith(p, "/")
  {
    assert StartsWith("/" + p, "/");
    if StartsWith(p, "/") {
      assert |Url(base, "/" + p)| == |Url(base, p)| + 1;
    }
  }

  // ---------------------------------------------------------------- the transport

  /** A response body: absent, readable, or failing while it is read. */
  datatype Body = NoBody | Readable(text: string) | ReadFails

  /** What executing one request produced: an exception, or a status code and body. */
  datatype Transport = Raised | Replied(code: int, body: Body)

  /** One value written to `RequestBus.last`: the URL and the status code (`None` for
      null). */
  type BusWrite = (string, Option<int>)

  /** A call's result and the values it wrote to `RequestBus.last`, in order. */
  datatype Exchange<T> = Exchange(result: T, bus: seq<BusWrite>)

  /** Whether the call's last bus write carries a status code. */
  predicate EndsWithCode<T>(x: Exchange<T>) {
    |x.bus| > 0 && x.bus[|x.bus| - 1].1.Some?
  }

  /** `get`: true on a 2xx status; the bus first shows the URL with no code, then the
      status code, or no code again after an exception. The body is not read. */
  function Get(base: string, path: string, t: Transport): (x: Exchange<bool>)
    ensures |x.bus| == 2 && x.bus[0] == (Url(base, path), None) && x.bus[1].0 == Url(base, path)
    ensures x.result <==> t.Replied? && 200 <= t.code <= 299
    ensures t.Replied? ==> x.bus[1].1 == Some(t.code)
    ensures EndsWithCode(x) <==> t.Replied?
  {
    var full := Url(base, path);
    match t
    case Raised => Exchange(false, [(full, None), (full, None)])
    case Replied(code, _) => Exchange(200 <= code <= 299, [(full, None), (full, Some(code))])
  }

  /** `getStatus`: the status code and the body (null when there is none), or null
      when the request throws or the body cannot be read; in the latter case the bus
      goes back to no code after showing the status. */
  function GetStatus(base: string, path: string, t: Transport): (x: Exchange<Option<(int, Option<string>)>>)
    ensures |x.bus| >= 2 && x.bus[0] == (Url(base, path), None)
    ensures forall i :: 0 <= i < |x.bus| ==> x.bus[i].0 == Url(base, path)
    ensures x.result.Some? <==> t.Replied? && !t.body.ReadFails?
    ensures x.result.Some? ==>
      && x.result.value.0 == t.code
      && (x.result.value.1.Some? <==> t.body.Readable?)
      && (t.body.Readable? ==> x.result.value.1.value == t.body.text)
    ensures EndsWithCode(x) <==> x.result.Some?
  {
    var full := Url(base, path);
    match t
    case Raised => Exchange(None, [(full, None), (full, None)])
    case Replied(code, NoBody) => Exchange(Some((code, None)), [(full, None), (full, Some(code))])
    case Replied(code, Readable(s)) => Exchange(Some((code, Some(s))), [(full, None), (full, Some(code))])
    case Replied(code, ReadFails) => Exchange(None, [(full, None), (full, Some(code)), (full, None)])
  }

  /** `stateRaw`: the body of `/state` whatever the status code, or null when the
      request throws, the body is absent or cannot be read. */
  function StateRaw(base: string, t: Transport): (x: Exchange<Option<string>>)
    ensures |x.bus| >= 2 && x.bus[0] == (Url(base, "state"), None)
    ensures x.result.Some? <==> t.Replied? && t.body.Readable?
    ensures x.result.Some? ==> x.result.value == t.body.text
    ensures EndsWithCode(x) <==> t.Replied? && !t.body.ReadFails?
  {
    var full := Url(base, "state");
    match t
    case Raised => Exchange(None, [(full, None), (full, None)])
    case Replied(code, NoBody) => Exchange(None, [(full, None), (full, Some(code))])
    case Replied(code, Readable(s)) => Exchange(Some(s), [(full, None), (full, Some(code))])
    case Replied(code, ReadFails) => Exchange(None, [(full, None), (full, Some(code)), (full, None)])
  }

  /** `ping`: the device answered `/state` with a readable body, even an error
      status. */
  function Ping(base: string, t: Transport): (ok: bool)
    ensures ok <==> t.Replied? && t.body.Readable?
  {
    StateRaw(base, t).result.Some?
  }

  /** A call goes out exactly to `Url(base, path)` and the bus ends with a status code
      exactly when a response arrived whose body, if the call reads it, was read. */
  lemma BusEndsWithCodeOnResponse(base: string, path: string, t: Transport)
    ensures EndsWithCode(Get(base, path, t)) <==> t.Replied?
    ensures EndsWithCode(GetStatus(base, path, t)) <==> t.Replied? && !t.body.ReadFails?
    ensures t.Replied? ==>
      Get(base, path, t).bus[1] == GetStatus(base, path, t).bus[1] == (Url(base, path), Some(t.code))
  {
  }

  // ---------------------------------------------------------------- the endpoints

  /** The arguments of `/select`: `blink=1` is added only when asked for. */
  function SelectArgs(start: i32, end: i32, blink: bool): (ps: seq<Query.Pair>)
    ensures |ps| == if blink then 3 else 2
    ensures ps[0] == ("start", IntToDec(start)) && ps[1] == ("end", IntToDec(end))
    ensures blink ==> ps[2] == ("blink", "1")
  {
    [("start", IntToDec(start)), ("end", IntToDec(end))] + (if blink then [("blink", "1")] else [])
  }

  /** `select`'s path: the request line names exactly `SelectArgs`. */
  function SelectPath(start: i32, end: i32, blink: bool): (p: string)
    ensures p == "select?" + Query.Join(SelectArgs(start, end, blink))
  {
    var s := IntToDec(start);
    var e := IntToDec(end);
    if blink then
      Query.JoinAfter3("select?", ("start", s), ("end", e), ("blink", "1"));
      "select?" + "start" + "=" + s + "&" + "end" + "=" + e + "&" + "blink" + "=" + "1"
    else
      Query.JoinAfter2("select?", ("start", s), ("end", e));
      "select?" + "start" + "=" + s + "&" + "end" + "=" + e
  }

  function Select(base: string, start: i32, end: i32, blink: bool, t: Transport): Exchange<bool> {
    Get(base, SelectPath(start, end, blink), t)
  }

  /** The hex argument as sent: trimmed, one leading `#` removed. */
  function CleanHex(hex: string): (c: string)
    ensures StartsWith(Trim(hex), "#") ==> Trim(hex) == "#" + c
    ensures !StartsWith(Trim(hex), "#") ==> c == Trim(hex)
  {
    RemovePrefix(Trim(hex), "#")
  }

  /** The arguments of `/set`: the cleaned hex and, when given, the local brightness
      clamped to 0..255. */
  function SetArgs(hex: string, lbright: Option<int>): (ps: seq<Query.Pair>)
    ensures |ps| == if lbright.Some? then 2 else 1
    ensures ps[0] == ("hex", CleanHex(hex))
    ensures lbright.Some? ==> ps[1] == ("lbright", IntToDec(Clamp(lbright.value, 0, 255)))
  {
    [("hex", CleanHex(hex))]
      + (if lbright.Some? then [("lbright", IntToDec(Clamp(lbright.value, 0, 255)))] else [])
  }

  /** `setPreviewHexStatus`'s path. The hex text is not URL-encoded. */
  function SetPath(hex: string, lbright: Option<int>): (p: string)
    ensures p == "set?" + Query.Join(SetArgs(hex, lbright))
  {
    var h := CleanHex(hex);
    match lbright
    case None => "set?" + "hex" + "=" + h
    case Some(v) =>
      var lb := IntToDec(Clamp(v, 0, 255));
      Query.JoinAfter2("set?", ("hex", h), ("lbright", lb));
      "set?" + "hex" + "=" + h + "&" + "lbright" + "=" + lb
  }

  /** `setPreviewHexStatus`: a `getStatus` of `/set` with the cleaned hex and the
      optional clamped local brightness. */
  function SetPreviewHexStatus(base: string, hex: string, lbright: Option<int>, t: Transport)
    : (x: Exchange<Option<(int, Option<string>)>>)
    ensures |x.bus| >= 2 && x.bus[0] == (Url(base, "set?" + Query.Join(SetArgs(hex, lbright))), None)
    ensures x.result.Some? <==> t.Replied? && !t.body.ReadFails?
    ensures x.result.Some? ==> x.result.value.0 == t.code
    ensures x.result.Some? && t.body.Readable? ==> x.result.value.1 == Some(t.body.text)
  {
    GetStatus(base, SetPath(hex, lbright), t)
  }

  /** `setPreviewHex`: true exactly on status 200 with a body that could be read;
      another 2xx status counts as failure here. */
  function SetPreviewHex(base: string, hex: string, lbright: Option<int>, t: Transport): (ok: bool)
    ensures ok <==> t.Replied? && t.code == 200 && !t.body.ReadFails?
  {
    var x := SetPreviewHexStatus(base, hex, lbright, t);
    x.result.Some? && x.result.value.0 == 200
  }

  /** The path of a request with one `value` argument clamped to 0..255. */
  function ValuePath(name: string, value: int): (p: string)
    ensures p == name + "?" + Query.Join([("value", IntToDec(Clamp(value, 0, 255)))])
  {
    name + "?value=" + IntToDec(Clamp(value, 0, 255))
  }

  function SetLocalBrightness(base: string, value: int, t: Transport): Exchange<bool> {
    Get(base, ValuePath("lbright", value), t)
  }

  function SetGlobalBrightness(base: string, value: int, t: Transport): Exchange<bool> {
    Get(base, ValuePath("brightness", value), t)
  }

  function Save(base: string, t: Transport): Exchange<bool> {
    Get(base, "save", t)
  }

  function Cancel(base: string, t: Transport): Exchange<bool> {
    Get(base, "cancel", t)
  }

  /** The arguments of `/blink`: at least one blink, at least 20 ms each. */
  function BlinkArgs(start: i32, end: i32, times: i32, ms: i32): (ps: seq<Query.Pair>)
    ensures |ps| == 4
    ensures ps[0] == ("start", IntToDec(start)) && ps[1] == ("end", IntToDec(end))
    ensures ps[2] == ("times", IntToDec(if times < 1 then 1 else times))
    ensures ps[3] == ("ms", IntToDec(if ms < 20 then 20 else ms))
  {
    [("start", IntToDec(start)), ("end", IntToDec(end)),
     ("times", IntToDec(if times < 1 then 1 else times)), ("ms", IntToDec(if ms < 20 then 20 else ms))]
  }

  /** `blink`'s path, whose request line names exactly `BlinkArgs`. */
  function BlinkPath(start: i32, end: i32, times: i32, ms: i32): (p: string)
    ensures p == "blink?" + Query.Join(BlinkArgs(start, end, times, ms))
  {
    var t := IntToDec(if times < 1 then 1 else times);
    var m := IntToDec(if ms < 20 then 20 else ms);
    var st := IntToDec(start);
    var e := IntToDec(end);
    Query.JoinAfter4("blink?", ("start", st), ("end", e), ("times", t), ("ms", m));
    "blink?" + "start" + "=" + st + "&" + "end" + "=" + e + "&" + "times" + "=" + t + "&" + "ms" + "=" + m
  }

  function Blink(base: string, start: i32, end: i32, times: i32, ms: i32, t: Transport): Exchange<bool> {
    Get(base, BlinkPath(start, end, times, ms), t)
  }
}
