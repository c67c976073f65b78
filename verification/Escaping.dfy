/** String values in .config: escape_string_value, and the loop of conf_set_sym_val that undoes it in place. */
module Escaping {
  import opened Expressions

  const QUOTE := '"'
  const BACKSLASH := '\\'
  const NUL := '\0'

  predicate Special(c: char) { c == QUOTE || c == BACKSLASH }

  /** each quote and each backslash behind a backslash */
  function Body(s: string): string {
    if s == "" then "" else Unit(s[0]) + Body(s[1..])
  }

  function Unit(c: char): string {
    if Special(c) then [BACKSLASH, c] else [c]
  }

  function Escape(s: string): string {
    [QUOTE] + Body(s) + [QUOTE]
  }

  function Prepend(d: string, r: Option<string>): Option<string> {
    if r.None? then None else Some(d + r.value)
  }

  /** what the text after an opening quote stands for, up to the closing quote; none if that is missing */
  function Scan(s: string): Option<string> {
    if s == "" then None
    else if s[0] == QUOTE then Some("")
    else if s[0] != BACKSLASH then Prepend([s[0]], Scan(s[1..]))
    else if |s| == 1 then None
    else Prepend([s[1]], Scan(s[2..]))
  }

  /** Reading undoes escaping, for every string and whatever follows the closing quote. */
  lemma {:induction false} ScanEscaped(s: string, rest: string)
    ensures Scan(Body(s) + [QUOTE] + rest) == Some(s)
  {
    if s == "" {
      assert Body(s) + [QUOTE] + rest == [QUOTE] + rest;
    } else {
      var t := Body(s[1..]) + [QUOTE] + rest;
      ScanEscaped(s[1..], rest);
      assert s == [s[0]] + s[1..] && Body(s) == Unit(s[0]) + Body(s[1..]);
      Regrouped(Unit(s[0]), Body(s[1..]), [QUOTE], rest);
      hide Body, Scan;
      if Special(s[0]) {
        ScanPair(s[0], t);
      } else {
        ScanPlain(s[0], t);
      }
    }
  }

  lemma Regrouped(a: string, b: string, c: string, d: string)
    ensures a + b + c + d == a + (b + c + d)
  {
  }

  lemma ScanPair(c: char, t: string)
    ensures Scan([BACKSLASH, c] + t) == Prepend([c], Scan(t))
  {
    assert ([BACKSLASH, c] + t)[2..] == t;
  }

  lemma ScanPlain(c: char, t: string)
    requires !Special(c)
    ensures Scan([c] + t) == Prepend([c], Scan(t))
  {
    assert ([c] + t)[1..] == t;
  }

  lemma {:induction false} BodyAppend(s: string, t: string)
    ensures Body(s + t) == Body(s) + Body(t)
  {
    hide Unit;
    if s == "" {
      assert s + t == t;
    } else {
      BodyAppend(s[1..], t);
      assert (s + t)[1..] == s[1..] + t;
      assert Unit(s[0]) + (Body(s[1..]) + Body(t)) == Unit(s[0]) + Body(s[1..]) + Body(t);
    }
  }

  lemma {:induction false} BodyPlain(s: string)
    requires forall c <- s :: !Special(c)
    ensures Body(s) == s
  {
    if s != "" {
      BodyPlain(s[1..]);
    }
  }

  lemma BodySpan(s: string, p: nat, n: nat)
    requires p + n <= |s| && forall c <- s[p..p + n] :: !Special(c)
    ensures Body(s[..p + n]) == Body(s[..p]) + s[p..p + n]
  {
    hide Body;
    BodyPlain(s[p..p + n]);
    BodyAppend(s[..p], s[p..p + n]);
    assert s[..p] + s[p..p + n] == s[..p + n];
  }

  lemma BodySpecial(s: string, p: nat)
    requires p < |s| && Special(s[p])
    ensures Body(s[..p + 1]) == Body(s[..p]) + [BACKSLASH] + [s[p]]
  {
    BodyAppend(s[..p], [s[p]]);
    assert s[..p] + [s[p]] == s[..p + 1];
    assert Body([s[p]]) == [BACKSLASH, s[p]];
    assert Body(s[..p]) + [BACKSLASH, s[p]] == Body(s[..p]) + [BACKSLASH] + [s[p]];
  }

  /** strcspn(s + at, "\"\\") */
  method Span(s: string, at: nat) returns (n: nat)
    requires at <= |s|
    ensures at + n <= |s| && (forall c <- s[at..at + n] :: !Special(c))
    ensures at + n < |s| ==> Special(s[at + n])
  {
    n := 0;
    while at + n < |s| && !Special(s[at + n])
      invariant at + n <= |s| && forall i :: at <= i < at + n ==> !Special(s[i])
    {
      n := n + 1;
    }
  }

  /** escape_string_value; the size it allocates is that of the result and its terminator. */
  method EscapeValue(s: string) returns (out: string, size: nat)
    ensures out == Escape(s) && size == |out| + 1
  {
    hide Body, Special;
    size := EscapedSize(s);
    out := [QUOTE];
    var p, n := 0, 0;
    assert s[..0] == "" && Body("") == "" by { EmptyBody(); }
    while true
      invariant p <= |s| && out == [QUOTE] + Body(s[..p])
      decreases |s| - p
    {
      n := Span(s, p);
      BodySpan(s, p, n);
      out, p := out + s[p..p + n], p + n;
      if p == |s| { break; }
      BodySpecial(s, p);
      out, p := out + [BACKSLASH] + [s[p]], p + 1;
    }
    assert s[..p] == s;
    out := out + [QUOTE];
  }

  /** its first loop */
  method EscapedSize(s: string) returns (size: nat)
    ensures size == |Body(s)| + 3
  {
    hide Body, Special;
    size := |s| + 3;
    var p, n := 0, 0;
    assert s[..0] == "" && Body("") == "" by { EmptyBody(); }
    while true
      invariant p <= |s| && size == |s| + 3 + |Body(s[..p])| - p
      decreases |s| - p
    {
      n := Span(s, p);
      BodySpan(s, p, n);
      p := p + n;
      if p == |s| { break; }
      BodySpecial(s, p);
      size, p := size + 1, p + 1;
    }
    assert s[..p] == s;
  }

  lemma EmptyBody()
    ensures Body("") == ""
  {
  }

  // Strings in buffers

  /** the string that starts at an address: up to the next NUL */
  function Text(b: seq<char>, at: nat): string
    decreases |b| - at
  {
    if at >= |b| || b[at] == NUL then "" else [b[at]] + Text(b, at + 1)
  }

  ghost predicate Terminated(b: seq<char>, at: nat) {
    exists i :: at <= i < |b| && b[i] == NUL
  }

  lemma {:induction false} TextIn(b: seq<char>, at: nat)
    requires Terminated(b, at)
    ensures
      var s := Text(b, at);
      at + |s| < |b| && b[at + |s|] == NUL && b[at..at + |s|] == s && NUL !in s
    decreases |b| - at
  {
    if b[at] != NUL {
      TextIn(b, at + 1);
    }
  }

  lemma {:induction false} TextIs(b: seq<char>, at: nat, s: string)
    requires at + |s| < |b| && b[at + |s|] == NUL && b[at..at + |s|] == s && NUL !in s
    ensures Text(b, at) == s
    decreases |s|
  {
    if s != "" {
      assert b[at] == s[0] && b[at + 1..at + |s|] == s[1..];
      TextIs(b, at + 1, s[1..]);
    }
  }

  /** strlen */
  method Length(buf: array<char>, at: nat) returns (n: nat)
    requires Terminated(buf[..], at)
    ensures n == |Text(buf[..], at)|
  {
    n := 0;
    TextIn(buf[..], at);
    ghost var s := Text(buf[..], at);
    assert forall i :: 0 <= i < |s| ==> buf[at + i] == s[i];
    while buf[at + n] != NUL
      invariant n <= |s|
      decreases |s| - n
    {
      n := n + 1;
    }
  }

  /** strpbrk(buf + at, "\"\\"), or nothing at the end of the string */
  method Find(buf: array<char>, at: nat) returns (i: nat, found: bool)
    requires Terminated(buf[..], at)
    ensures
      var s := Text(buf[..], at);
      && at <= i <= at + |s| && i - at <= |s| && (forall c <- s[..i - at] :: !Special(c))
      && (if found then i < at + |s| && Special(s[i - at]) else i == at + |s|)
  {
    TextIn(buf[..], at);
    ghost var s := Text(buf[..], at);
    assert forall k :: 0 <= k < |s| ==> buf[at + k] == s[k];
    i := at;
    while buf[i] != NUL && !Special(buf[i])
      invariant at <= i <= at + |s| && forall k :: 0 <= k < i - at ==> !Special(s[k])
      decreases at + |s| - i
    {
      i := i + 1;
    }
    found := buf[i] != NUL;
  }

  /** memmove(buf + at, buf + at + 1, n) */
  method MoveDown(buf: array<char>, at: nat, n: nat)
    requires at + n < buf.Length
    modifies buf
    ensures buf[..] == old(buf[..at] + buf[at + 1..at + 1 + n] + buf[at + n..])
  {
    forall i | at <= i < at + n { buf[i] := buf[i + 1]; }
  }

  lemma PrependTwice(d: string, e: string, r: Option<string>)
    ensures Prepend(d, Prepend(e, r)) == Prepend(d + e, r)
    ensures Prepend("", r) == r
  {
    if r.Some? {
      assert d + (e + r.value) == d + e + r.value && "" + r.value == r.value;
    }
  }

  /** characters that are not special stand for themselves */
  lemma {:induction false} ScanSpan(s: string, k: nat)
    requires k <= |s| && forall c <- s[..k] :: !Special(c)
    ensures Scan(s) == Prepend(s[..k], Scan(s[k..]))
  {
    PrependTwice("", "", Scan(s));
    if k > 0 {
      assert s == [s[0]] + s[1..] && s[0] in s[..k];
      assert s[1..][..k - 1] == s[1..k];
      assert forall c <- s[1..k] :: c in s[..k];
      ScanPlain(s[0], s[1..]);
      ScanSpan(s[1..], k - 1);
      PrependTwice([s[0]], s[1..k], Scan(s[k..]));
      assert s[1..][k - 1..] == s[k..] && [s[0]] + s[1..k] == s[..k];
    } else {
      assert s[..0] == "" && s[0..] == s;
    }
  }

  /** the character behind a backslash stands for itself */
  lemma ScanDrop(t: string, c: char)
    requires t != "" && t[0] == BACKSLASH && (|t| > 1 ==> c == t[1])
    ensures Scan(t) == Prepend([c], Scan(if |t| > 1 then t[2..] else ""))
  {
    if |t| > 1 {
      assert t == [BACKSLASH, c] + t[2..];
      ScanPair(c, t[2..]);
    }
  }

  lemma Dropped(c: char, s: string, k: nat)
    requires 0 < k <= |s| + 1
    ensures ([c] + s)[k..] == s[k - 1..]
  {
  }

  lemma {:induction false} TextAfter(b: seq<char>, at: nat, k: nat)
    requires Terminated(b, at) && k <= |Text(b, at)|
    ensures Terminated(b, at + k) && Text(b, at + k) == Text(b, at)[k..]
    decreases k
  {
    if k > 0 {
      assert Text(b, at) == [b[at]] + Text(b, at + 1) && b[at] != NUL;
      TextAfter(b, at + 1, k - 1);
      Dropped(b[at], Text(b, at + 1), k);
    }
  }

  /** memmove(p2, p2 + 1, strlen(p2)): the old terminator stays, one place behind the new one */
  method DropBackslash(buf: array<char>, i: nat)
    requires i < buf.Length && Terminated(buf[..], i) && buf[i] == BACKSLASH
    modifies buf
    ensures
      var t := Text(old(buf[..]), i);
      && t != "" && t[0] == BACKSLASH && buf[..i] == old(buf[..i]) && Terminated(buf[..], i + 1)
      && Text(buf[..], i + 1) == (if |t| > 1 then t[2..] else "") && (|t| > 1 ==> buf[i] == t[1])
  {
    ghost var t := Text(buf[..], i);
    TextIn(buf[..], i);
    assert forall k :: 0 <= k < |t| ==> buf[i + k] == t[k];
    var n := Length(buf, i);
    MoveDown(buf, i, n);
    Moved(old(buf[..]), buf[..], i, t);
  }

  lemma Moved(b: seq<char>, c: seq<char>, i: nat, t: string)
    requires i + |t| < |b| && b[i..i + |t|] == t && b[i + |t|] == NUL && NUL !in t && t != ""
    requires c == b[..i] + b[i + 1..i + 1 + |t|] + b[i + |t|..]
    ensures c[..i] == b[..i] && Terminated(c, i + 1) && Text(c, i + 1) == (if |t| > 1 then t[2..] else "")
    ensures |t| > 1 ==> c[i] == t[1]
  {
    var n := |t|;
    assert c[i + n] == NUL && c[i + n - 1] == NUL;
    if n > 1 {
      assert c[i + 1..i + n - 1] == t[2..];
      TextIs(c, i + 1, t[2..]);
    } else {
      TextIs(c, i + 1, "");
    }
  }

  /** one iteration, from q on: what d and the string at q stand for together stays the same */
  lemma Advance(was: string, d: string, r: string, k: nat)
    requires Scan(was) == Prepend(d, Scan(r)) && k <= |r| && forall c <- r[..k] :: !Special(c)
    ensures Scan(was) == Prepend(d + r[..k], Scan(r[k..]))
  {
    ScanSpan(r, k);
    PrependTwice(d, r[..k], Scan(r[k..]));
  }

  lemma AdvanceDrop(was: string, d: string, t: string, c: char)
    requires Scan(was) == Prepend(d, Scan(t)) && t != "" && t[0] == BACKSLASH && (|t| > 1 ==> c == t[1])
    ensures Scan(was) == Prepend(d + [c], Scan(if |t| > 1 then t[2..] else ""))
  {
    ScanDrop(t, c);
    PrependTwice(d, [c], Scan(if |t| > 1 then t[2..] else ""));
  }

  lemma IsBackslash(c: char)
    requires Special(c) && c != QUOTE
    ensures c == BACKSLASH
  {
  }

  lemma AtEnd(was: string, d: string, t: string)
    requires Scan(was) == Prepend(d, Scan(t))
    ensures t == "" ==> Scan(was) == None
    ensures t != "" && t[0] == QUOTE ==> Scan(was) == Some(d)
  {
    if t != "" && t[0] == QUOTE {
      assert d + "" == d;
    }
  }

  /** what is left in b from p to q stands, with the string at q, for what the text was at first */
  ghost predicate Unescaped(was: string, b: seq<char>, p: nat, q: nat) {
    && p <= q <= |b| && Terminated(b, q) && Scan(was) == Prepend(b[p..q], Scan(Text(b, q)))
    && (NUL !in b[p..q] || Text(b, q) == "")
  }

  lemma Stretch(b: seq<char>, p: nat, q: nat, i: nat, r: string)
    requires p <= q <= i <= q + |r| <= |b| && b[q..q + |r|] == r
    ensures b[p..i] == b[p..q] + r[..i - q]
  {
    assert b[q..i] == r[..i - q];
  }

  lemma NotIn(d: string, r: string, k: nat)
    requires k <= |r| && NUL !in r && (NUL !in d || r == "")
    ensures NUL !in d + r[..k] || r[k..] == ""
  {
  }

  lemma OneMore(b: seq<char>, c: seq<char>, p: nat, i: nat)
    requires p <= i < |c| == |b| && c[..i] == b[..i]
    ensures c[p..i + 1] == b[p..i] + [c[i]]
  {
    assert c[p..i] == b[p..i];
  }

  lemma UnescapedStart(b: seq<char>, p: nat)
    requires Terminated(b, p)
    ensures Unescaped(Text(b, p), b, p, p)
  {
    PrependTwice("", "", Scan(Text(b, p)));
    assert b[p..p] == "";
  }

  lemma UnescapedWithin(was: string, b: seq<char>, p: nat, q: nat)
    requires Unescaped(was, b, p, q)
    ensures p <= q <= q + |Text(b, q)| < |b| && Terminated(b, q) && b[q + |Text(b, q)|] == NUL
    ensures Text(b, q) != "" ==> b[q] == Text(b, q)[0] && b[q] != NUL
  {
    TextIn(b, q);
  }

  /** the next special character, or the end, is at i */
  lemma UnescapedTo(was: string, b: seq<char>, p: nat, q: nat, i: nat)
    requires Unescaped(was, b, p, q) && q <= i <= q + |Text(b, q)|
    requires forall c <- Text(b, q)[..i - q] :: !Special(c)
    ensures Unescaped(was, b, p, i) && Text(b, i) == Text(b, q)[i - q..]
  {
    hide Text, Special, Scan, Prepend, Terminated;
    var r, d := Text(b, q), b[p..q];
    TextIn(b, q);
    TextAfter(b, q, i - q);
    Advance(was, d, r, i - q);
    Stretch(b, p, q, i, r);
    NotIn(d, r, i - q);
  }

  /** the unescaping loop ends at a quote, or at the end of the string */
  lemma UnescapedEnd(was: string, b: seq<char>, p: nat, q: nat)
    requires Unescaped(was, b, p, q) && q < |b|
    ensures Text(b, q) == "" ==> Scan(was) == None
    ensures b[q] == QUOTE ==>
              var c := b[q := NUL]; Scan(was) == Some(b[p..q]) && Terminated(c, p) && Text(c, p) == b[p..q]
  {
    TextIn(b, q);
    AtEnd(was, b[p..q], Text(b, q));
    if b[q] == QUOTE {
      var c := b[q := NUL];
      assert c[p..q] == b[p..q];
      TextIs(c, p, b[p..q]);
    }
  }

  /** The unescaping loop of conf_set_sym_val: p is behind the opening quote. The string that is left at p is what
      the text stood for. */
  method Unescape(buf: array<char>, p: nat) returns (ok: bool)
    requires Terminated(buf[..], p)
    modifies buf
    ensures p <= buf.Length && buf[..p] == old(buf[..p])
    ensures ok <==> Scan(Text(old(buf[..]), p)).Some?
    ensures ok ==> Terminated(buf[..], p) && Text(buf[..], p) == Scan(Text(old(buf[..]), p)).value
  {
    hide Text, Special, Scan, Prepend, Unescaped, Terminated;
    ghost var was := Text(buf[..], p);
    var q := p;
    TextIn(buf[..], p);
    UnescapedStart(buf[..], p);
    while true
      invariant p <= q <= buf.Length && buf[..p] == old(buf[..p]) && Unescaped(was, buf[..], p, q)
      decreases buf.Length - q
    {
      UnescapedWithin(was, buf[..], p, q);
      var i, found := Find(buf, q);
      UnescapedTo(was, buf[..], p, q, i);
      UnescapedWithin(was, buf[..], p, i);
      UnescapedEnd(was, buf[..], p, i);
      if !found {
        return false;
      }
      if buf[i] == QUOTE {
        buf[i] := NUL;
        return true;
      }
      IsBackslash(buf[i]);
      ghost var b := buf[..];
      DropBackslash(buf, i);
      UnescapedDrop(was, b, buf[..], p, i);
      q := i + 1;
    }
  }

  lemma UnescapedDrop(was: string, b: seq<char>, c: seq<char>, p: nat, i: nat)
    requires Unescaped(was, b, p, i) && Text(b, i) != "" && Text(b, i)[0] == BACKSLASH
    requires |c| == |b| && c[..i] == b[..i] && i < |c| && Terminated(c, i + 1)
    requires Text(c, i + 1) == (if |Text(b, i)| > 1 then Text(b, i)[2..] else "") && (|Text(b, i)| > 1 ==> c[i] == Text(b, i)[1])
    ensures Unescaped(was, c, p, i + 1)
  {
    var d, t := b[p..i], Text(b, i);
    TextIn(b, i);
    OneMore(b, c, p, i);
    hide Text, Special, Scan, Prepend, Terminated;
    AdvanceDrop(was, d, t, c[i]);
  }
}
