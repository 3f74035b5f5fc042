/** The string helpers of the Android client's main screen
    (android/app/src/main/java/com/example/ledctrl/MainActivity.kt): address
    normalisation, the digit filter of the range fields, index parsing, the colour's hex
    form and the URL `httpGet` requests. */
module ClientText {
  import opened Wrappers
  import opened Text
  import Query

  // ---------------------------------------------------------------- normalizeBaseUrl

  const Http := "http://"
  const Https := "https://"

  predicate HasScheme(s: string) {
    StartsWith(s, Http) || StartsWith(s, Https)
  }

  /** `normalizeBaseUrl`: trim, prepend `http://` unless a scheme is already there, then
      drop trailing slashes. */
  function NormalizeBaseUrl(s: string): (r: string)
    ensures |r| == 0 || r[|r| - 1] != '/'
    ensures HasScheme(Trim(s)) ==> r == TrimEnd(Trim(s), '/')
    ensures !HasScheme(Trim(s)) ==> r == TrimEnd(Http + Trim(s), '/')
  {
    var t := Trim(s);
    var u := if !StartsWith(t, Http) && !StartsWith(t, Https) then Http + t else t;
    TrimEnd(u, '/')
  }

  /** Trimming slashes again, as `httpGet` does, changes nothing. */
  lemma TrimEndIdempotent(s: string, c: char)
    ensures TrimEnd(TrimEnd(s, c), c) == TrimEnd(s, c)
  {
  }

  /** A bare host with nothing to trim gets `http://` and is otherwise kept as typed,
      e.g. `192.168.1.50` becomes `http://192.168.1.50`. */
  lemma NormalizeBareHost(s: string)
    requires |s| > 0 && !IsWhitespace(s[0]) && !IsWhitespace(s[|s| - 1]) && s[|s| - 1] != '/'
    requires !HasScheme(s)
    ensures NormalizeBaseUrl(s) == Http + s
  {
    assert TrimStartWs(s) == s;
    assert TrimEndWs(s) == s;
    assert (Http + s)[|Http + s| - 1] == s[|s| - 1];
  }

  /** The empty address is not rejected: it normalises to `http:`, the slashes of the
      added scheme being trimmed as trailing slashes. */
  lemma NormalizeEmptyAddress()
    ensures NormalizeBaseUrl("") == "http:"
  {
    assert Trim("") == "";
    assert TrimEnd("http:/", '/') == "http:";
  }

  // ---------------------------------------------------------------- range fields

  /** `r` is `s` with some characters left out, the rest kept in order. */
  predicate IsSubsequence(r: string, s: string)
    decreases |s|
  {
    |r| == 0 || (|s| > 0 && if r[0] == s[0] then IsSubsequence(r[1..], s[1..]) else IsSubsequence(r, s[1..]))
  }

  /** `filterDigits`: keeps the digits, in order, and nothing else. */
  function FilterDigits(s: string): (r: string)
    ensures AllDigits(r)
    ensures IsSubsequence(r, s)
    ensures forall c :: IsDigit(c) ==> multiset(r)[c] == multiset(s)[c]
    ensures |r| <= |s|
  {
    if |s| == 0 then ""
    else
      var rest := FilterDigits(s[1..]);
      assert multiset(s) == multiset{s[0]} + multiset(s[1..]) by {
        assert s == [s[0]] + s[1..];
      }
      if IsDigit(s[0]) then
        var r := [s[0]] + rest;
        assert r[1..] == rest;
        assert multiset(r) == multiset{s[0]} + multiset(rest);
        r
      else rest
  }

  /** Filtering twice is filtering once, and a digit string is its own filtering. */
  lemma {:induction false} FilterDigitsFixesDigits(s: string)
    requires AllDigits(s)
    ensures FilterDigits(s) == s
  {
    if |s| > 0 {
      FilterDigitsFixesDigits(s[1..]);
    }
  }

  lemma FilterDigitsIdempotent(s: string)
    ensures FilterDigits(FilterDigits(s)) == FilterDigits(s)
  {
    FilterDigitsFixesDigits(FilterDigits(s));
  }

  /** Kotlin's `String.length`: UTF-16 code units, so a character outside the Basic
      Multilingual Plane counts twice. */
  function Utf16Length(s: string): (n: nat)
    ensures |s| <= n <= 2 * |s|
    ensures n == |s| <==> forall k :: 0 <= k < |s| ==> s[k] < '\U{10000}'
  {
    if |s| == 0 then 0
    else (if s[0] < '\U{10000}' then 1 else 2) + Utf16Length(s[1..])
  }

  /** `onValueChange` of the `start`/`end` fields: an edit longer than five UTF-16 units
      is refused, any other is kept with its non-digits removed. */
  function EditRangeField(current: string, edit: string): (r: string)
    ensures Utf16Length(edit) <= 5 ==> r == FilterDigits(edit)
    ensures Utf16Length(edit) > 5 ==> r == current
    ensures AllDigits(current) && |current| <= 5 ==> AllDigits(r) && |r| <= 5
    ensures Utf16Length(current) <= 5 ==> Utf16Length(r) <= 5
  {
    if Utf16Length(edit) <= 5 then
      var r := FilterDigits(edit);
      assert forall k :: 0 <= k < |r| ==> r[k] < '\U{10000}' by {
        assert forall k :: 0 <= k < |r| ==> IsDigit(r[k]);
      }
      r
    else current
  }

  /** Four digits and a character outside the Basic Multilingual Plane are six UTF-16
      units: the edit is refused although it holds five characters. */
  lemma EditCountsUtf16Units()
    ensures EditRangeField("0", "1234\U{1F600}") == "0"
  {
    assert Utf16Length("1234\U{1F600}") == 6;
  }

  /** Kotlin `String.toIntOrNull()`: an optional sign (not alone), then digits only, and a
      value that fits in `Int`. */
  function ToIntOrNull(s: string): (r: Option<i32>)
    ensures AllDigits(s) && 1 <= |s| && DecValue(s) < 0x8000_0000 ==> r == Some(DecValue(s))
    ensures AllDigits(s) && 1 <= |s| <= 9 ==> r == Some(DecValue(s))
    ensures |s| == 0 ==> r == None
  {
    if |s| == 0 then None
    else
      var neg := s[0] == '-';
      var digits := if s[0] == '-' || s[0] == '+' then s[1..] else s;
      if |digits| == 0 || !AllDigits(digits) then None
      else
        DecValueBound(digits);
        assert Pow10(9) == 1_000_000_000;
        var v: int := if neg then -(DecValue(digits) as int) else DecValue(digits) as int;
        if -0x8000_0000 <= v < 0x8000_0000 then Some(v) else None
  }

  /** The index a range field stands for: `toIntOrNull() ?: 0`. */
  function FieldIndex(field: string): (i: i32)
    ensures |field| == 0 ==> i == 0
    ensures AllDigits(field) && 1 <= |field| <= 5 ==> i == DecValue(field)
  {
    ToIntOrNull(field).GetOr(0)
  }

  lemma {:induction false} DecValueBound(s: string)
    requires AllDigits(s)
    ensures DecValue(s) < Pow10(|s|)
  {
    if |s| > 0 {
      DecValueBound(s[..|s| - 1]);
    }
  }

  function Pow10(n: nat): (p: nat)
    ensures p >= 1
  {
    if n == 0 then 1 else 10 * Pow10(n - 1)
  }

  // ---------------------------------------------------------------- the colour in hex

  /** `%02X` of a byte. */
  function Hex2(b: byte): (h: string)
    ensures |h| == 2 && IsUpperHexDigit(h[0]) && IsUpperHexDigit(h[1])
    ensures IsHexDigit(h[0]) && IsHexDigit(h[1]) && 16 * HexValue(h[0]) + HexValue(h[1]) == b
  {
    [UpperHexChar(b / 16), UpperHexChar(b % 16)]
  }

  /** The three colour channels of an ARGB `colorInt`: `(c shr 16) and 0xFF`,
      `(c shr 8) and 0xFF`, `c and 0xFF`; `shr` is arithmetic. */
  function Channels(colorInt: i32): (byte, byte, byte) {
    (LowByte(colorInt / 0x1_0000), LowByte(colorInt / 0x100), LowByte(colorInt))
  }

  /** `String.format("%02X%02X%02X", ...)` of the channels: six upper-case hex digits, two
      per channel. */
  function Hex(colorInt: i32): (h: string)
    ensures |h| == 6 && AllHexDigits(h)
    ensures forall i :: 0 <= i < 6 ==> IsUpperHexDigit(h[i])
    ensures 16 * HexValue(h[0]) + HexValue(h[1]) == Channels(colorInt).0
    ensures 16 * HexValue(h[2]) + HexValue(h[3]) == Channels(colorInt).1
    ensures 16 * HexValue(h[4]) + HexValue(h[5]) == Channels(colorInt).2
  {
    var (r, g, b) := Channels(colorInt);
    Hex2(r) + Hex2(g) + Hex2(b)
  }

  // ---------------------------------------------------------------- httpGet

  /** Characters `URLEncoder` leaves as they are. */
  predicate Unreserved(c: char) {
    'a' <= c <= 'z' || 'A' <= c <= 'Z' || IsDigit(c) || c == '.' || c == '-' || c == '*' || c == '_'
  }

  /** The UTF-8 encoding of one Unicode scalar value. */
  function Utf8(c: char): (b: seq<byte>)
    ensures 1 <= |b| <= 4
  {
    var v := c as int;
    if v < 0x80 then [v]
    else if v < 0x800 then [0xC0 + v / 0x40, 0x80 + v % 0x40]
    else if v < 0x1_0000 then [0xE0 + v / 0x1000, 0x80 + (v / 0x40) % 0x40, 0x80 + v % 0x40]
    else [0xF0 + v / 0x4_0000, 0x80 + (v / 0x1000) % 0x40, 0x80 + (v / 0x40) % 0x40, 0x80 + v % 0x40]
  }

  function Percent(b: seq<byte>): (s: string)
    ensures forall i :: 0 <= i < |s| ==> s[i] == '%' || IsUpperHexDigit(s[i])
  {
    if |b| == 0 then "" else ['%', UpperHexChar(b[0] / 16), UpperHexChar(b[0] % 16)] + Percent(b[1..])
  }

  /** `urlEnc`, i.e. `URLEncoder.encode(s, "UTF-8")`: unreserved characters as they are,
      space as `+`, everything else as `%XX` per UTF-8 byte. */
  function UrlEnc(s: string): (r: string)
    ensures forall i :: 0 <= i < |r| ==> Unreserved(r[i]) || r[i] == '+' || r[i] == '%'
    ensures (forall i :: 0 <= i < |s| ==> Unreserved(s[i])) ==> r == s
  {
    if |s| == 0 then ""
    else
      var head := if Unreserved(s[0]) then [s[0]] else if s[0] == ' ' then "+" else Percent(Utf8(s[0]));
      assert forall i :: 0 <= i < |head| ==> Unreserved(head[i]) || head[i] == '+' || head[i] == '%';
      head + UrlEnc(s[1..])
  }

  function EncodePairs(params: seq<Query.Pair>): (r: seq<Query.Pair>)
    ensures |r| == |params|
    ensures forall i :: 0 <= i < |r| ==> r[i] == (UrlEnc(params[i].0), UrlEnc(params[i].1))
  {
    seq(|params|, i requires 0 <= i < |params| => (UrlEnc(params[i].0), UrlEnc(params[i].1)))
  }

  /** The part of an `httpGet` URL after the base: the path, then `?` and the encoded
      `k=v` pairs joined by `&` only when there are parameters. */
  function Target(path: string, params: seq<Query.Pair>): string {
    path + if |params| == 0 then "" else "?" + Query.Join(EncodePairs(params))
  }

  /** The URL `httpGet(path, params)` requests. */
  function HttpGetUrl(baseUrl: string, path: string, params: seq<Query.Pair>): (u: string)
    ensures u == NormalizeBaseUrl(baseUrl) + Target(path, params)
  {
    TrimEndIdempotent(Trim(baseUrl), '/');
    TrimEndIdempotent(Http + Trim(baseUrl), '/');
    TrimEnd(NormalizeBaseUrl(baseUrl), '/') + Target(path, params)
  }

  /** Encoded keys and values never contain the separators `&` and `=`. */
  lemma EncodedPlain(params: seq<Query.Pair>)
    ensures Query.Plain(EncodePairs(params))
  {
    var enc := EncodePairs(params);
    forall i | 0 <= i < |enc|
      ensures '&' !in enc[i].0 && '=' !in enc[i].0 && '&' !in enc[i].1
    {
      NoSeparators(params[i].0);
      NoSeparators(params[i].1);
    }
  }

  lemma NoSeparators(s: string)
    ensures '&' !in UrlEnc(s) && '=' !in UrlEnc(s) && '?' !in UrlEnc(s)
  {
    var r := UrlEnc(s);
    assert forall j :: 0 <= j < |r| ==> r[j] != '&' && r[j] != '=' && r[j] != '?';
  }

  /** Whatever the parameters hold, the server splits an `httpGet` target back into
      exactly the encoded parameters. */
  lemma TargetArgs(path: string, params: seq<Query.Pair>)
    requires '?' !in path
    ensures Query.Args(Target(path, params)) == EncodePairs(params)
  {
    if |params| == 0 {
      assert Target(path, params) == path + [];
      Query.FindPrefix(path, [], '?');
    } else {
      EncodedPlain(params);
      assert Target(path, params) == path + "?" + Query.Join(EncodePairs(params));
      Query.ArgsOfTarget(path, EncodePairs(params));
    }
  }

  /** The outcome of one HTTP exchange: an exception (no response), or a response code. */
  datatype HttpOutcome = Raised | Response(code: int)

  /** `httpGet` returns normally only on a 2xx response (`isSuccessful`); any other code
      is turned into an error, as is an exception. */
  predicate Succeeded(o: HttpOutcome) {
    o.Response? && 200 <= o.code <= 299
  }
}
