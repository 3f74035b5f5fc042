/** Request targets of the form `path?k=v&k=v`. The clients build them by joining
    pairs; the web server splits them back into the arguments the handlers read. The
    server side stands for the ESP8266 web-server library's argument splitting, which is
    not part of this repository; it is used to connect what a client sends to what a
    handler sees. Percent-decoding on the server is not modelled. */
module Query {
  import opened Text

  type Pair = (string, string)

  /** `k=v` pairs joined by `&`. */
  function Join(ps: seq<Pair>): string {
    if |ps| == 0 then ""
    else if |ps| == 1 then ps[0].0 + "=" + ps[0].1
    else ps[0].0 + "=" + ps[0].1 + "&" + Join(ps[1..])
  }

  /** The text of two, three and four joined pairs behind a fixed prefix, spelled out. */
  lemma JoinAfter2(pre: string, a: Pair, b: Pair)
    ensures pre + Join([a, b]) == pre + a.0 + "=" + a.1 + "&" + b.0 + "=" + b.1
  {
    assert [a, b][1..] == [b];
  }

  lemma JoinAfter3(pre: string, a: Pair, b: Pair, c: Pair)
    ensures pre + Join([a, b, c]) == pre + a.0 + "=" + a.1 + "&" + b.0 + "=" + b.1 + "&" + c.0 + "=" + c.1
  {
    assert [a, b, c][1..] == [b, c];
    JoinAfter2(a.0 + "=" + a.1 + "&", b, c);
    Assoc(pre, a.0 + "=" + a.1 + "&", Join([b, c]));
  }

  lemma Join4(a: Pair, b: Pair, c: Pair, d: Pair)
    ensures Join([a, b, c, d])
         == a.0 + "=" + a.1 + "&" + b.0 + "=" + b.1 + "&" + c.0 + "=" + c.1 + "&" + d.0 + "=" + d.1
  {
    assert [a, b, c, d][1..] == [b, c, d];
    JoinAfter3(a.0 + "=" + a.1 + "&", b, c, d);
  }

  lemma Assoc(x: string, y: string, z: string)
    ensures x + (y + z) == x + y + z
  {
  }

  lemma JoinAfter4(pre: string, a: Pair, b: Pair, c: Pair, d: Pair)
    ensures pre + Join([a, b, c, d])
         == pre + a.0 + "=" + a.1 + "&" + b.0 + "=" + b.1 + "&" + c.0 + "=" + c.1 + "&" + d.0 + "=" + d.1
  {
    Join4(a, b, c, d);
  }

  /** Index of the first `c` in `s`, or `|s|`. */
  function Find(s: string, c: char): (i: nat)
    ensures i <= |s|
    ensures forall k :: 0 <= k < i ==> s[k] != c
    ensures i < |s| ==> s[i] == c
  {
    if |s| == 0 || s[0] == c then 0 else 1 + Find(s[1..], c)
  }

  /** One argument: the key up to the first `=`, the value after it (empty without `=`). */
  function SplitPair(seg: string): Pair {
    var i := Find(seg, '=');
    if i == |seg| then (seg, "") else (seg[..i], seg[i + 1..])
  }

  /** The arguments of a query string, in order. */
  function Parse(q: string): seq<Pair>
    decreases |q|
  {
    if |q| == 0 then []
    else
      var i := Find(q, '&');
      if i == |q| then [SplitPair(q)] else [SplitPair(q[..i])] + Parse(q[i + 1..])
  }

  /** The arguments of a request target: what follows the first `?`, if any. */
  function Args(target: string): seq<Pair> {
    var i := Find(target, '?');
    if i == |target| then [] else Parse(target[i + 1..])
  }

  /** Neither separator of the query syntax occurs in a key; `&` does not occur in a value. */
  predicate Plain(ps: seq<Pair>) {
    forall i :: 0 <= i < |ps| ==>
      ('&' !in ps[i].0) && ('=' !in ps[i].0) && ('&' !in ps[i].1)
  }

  lemma {:induction false} FindPrefix(s: string, t: string, c: char)
    requires c !in s
    ensures Find(s + t, c) == |s| + Find(t, c)
    decreases |s|
  {
    if |s| == 0 {
      assert s + t == t;
    } else {
      assert (s + t)[1..] == s[1..] + t;
      FindPrefix(s[1..], t, c);
    }
  }

  lemma SplitJoinedPair(p: Pair)
    requires '=' !in p.0
    ensures SplitPair(p.0 + "=" + p.1) == p
  {
    var seg := p.0 + "=" + p.1;
    assert seg == p.0 + ("=" + p.1);
    FindPrefix(p.0, "=" + p.1, '=');
    assert Find("=" + p.1, '=') == 0;
    assert seg[..|p.0|] == p.0;
    assert seg[|p.0| + 1..] == p.1;
  }

  /** A last segment without `&` is one argument. */
  lemma ParseLast(seg: string)
    requires |seg| > 0 && '&' !in seg
    ensures Parse(seg) == [SplitPair(seg)]
  {
    FindPrefix(seg, [], '&');
    assert seg + [] == seg;
  }

  /** A segment without `&` followed by `&` is the first argument. */
  lemma ParseCons(seg: string, rest: string)
    requires '&' !in seg
    ensures Parse(seg + "&" + rest) == [SplitPair(seg)] + Parse(rest)
  {
    var q := seg + "&" + rest;
    assert q == seg + ("&" + rest);
    FindPrefix(seg, "&" + rest, '&');
    assert Find("&" + rest, '&') == 0;
    assert q[..|seg|] == seg;
    assert q[|seg| + 1..] == rest;
  }

  /** Splitting a joined query gives back its pairs. */
  lemma {:induction false} ParseJoin(ps: seq<Pair>)
    requires Plain(ps)
    ensures Parse(Join(ps)) == ps
    decreases |ps|
  {
    if |ps| >= 1 {
      var head := ps[0].0 + "=" + ps[0].1;
      assert '&' !in head;
      SplitJoinedPair(ps[0]);
      if |ps| == 1 {
        ParseLast(head);
      } else {
        ParseCons(head, Join(ps[1..]));
        assert Plain(ps[1..]) by {
          assert forall i :: 0 <= i < |ps| - 1 ==> ps[1..][i] == ps[i + 1];
        }
        ParseJoin(ps[1..]);
        assert ps == [ps[0]] + ps[1..];
      }
    }
  }

  /** The arguments of `path?query` when the path has no `?`. */
  lemma ArgsOfTarget(path: string, ps: seq<Pair>)
    requires '?' !in path && Plain(ps)
    ensures Args(path + "?" + Join(ps)) == ps
  {
    var t := path + "?" + Join(ps);
    assert t == path + ("?" + Join(ps));
    FindPrefix(path, "?" + Join(ps), '?');
    assert Find("?" + Join(ps), '?') == 0;
    assert t[|path| + 1..] == Join(ps);
    ParseJoin(ps);
  }
}
