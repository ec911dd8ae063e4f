// Writing a string value between quotes (sym_escape_string_value in
// scripts/config/symbol.c) and reading it back in place (the string case of
// conf_set_sym_val in scripts/config/confdata.c).  Strings are C strings: the
// characters before the first NUL of a buffer.

module Escape {
  const NUL := '\0'

  predicate Special(c: char) {
    c == '"' || c == '\\'
  }

  // ----- what the two functions compute -----

  function Escaped(s: string): string {
    if s == "" then "" else (if Special(s[0]) then ['\\', s[0]] else [s[0]]) + Escaped(s[1..])
  }

  /** What is read after the opening quote. */
  datatype Reading = Closed(value: string, rest: string) | Unclosed

  function Prepend(c: char, r: Reading): Reading {
    match r
    case Closed(v, rest) => Closed([c] + v, rest)
    case Unclosed => Unclosed
  }

  /** A backslash makes the next character an ordinary one; a quote closes. */
  function Read(s: string): Reading {
    if s == "" then Unclosed
    else if s[0] == '"' then Closed("", s[1..])
    else if s[0] == '\\' then (if |s| == 1 then Unclosed else Prepend(s[1], Read(s[2..])))
    else Prepend(s[0], Read(s[1..]))
  }

  lemma ReadPlain(c: char, t: string)
    requires !Special(c)
    ensures Read([c] + t) == Prepend(c, Read(t))
  {
    assert ([c] + t)[1..] == t;
  }

  lemma ReadSpecial(c: char, t: string)
    ensures Read(['\\', c] + t) == Prepend(c, Read(t))
  {
    assert (['\\', c] + t)[2..] == t;
  }

  /** Reading takes back the escaping, whatever follows the closing quote; so the
      first quote that is not escaped is the closing one. */
  lemma {:induction false} RoundTrip(s: string, rest: string)
    ensures Read(Escaped(s) + "\"" + rest) == Closed(s, rest)
  {
    if s == "" {
      assert (Escaped(s) + "\"" + rest)[1..] == rest;
    } else {
      var t := Escaped(s[1..]) + "\"" + rest;
      RoundTrip(s[1..], rest);
      ReadSpecial(s[0], t);
      EscapedCons(s, rest);
      assert s == [s[0]] + s[1..];
      if !Special(s[0]) {
        ReadPlain(s[0], t);
      }
      hide Read, Escaped;
    }
  }

  lemma EscapedCons(s: string, rest: string)
    requires s != ""
    ensures Escaped(s) + "\"" + rest
         == (if Special(s[0]) then ['\\', s[0]] else [s[0]]) + (Escaped(s[1..]) + "\"" + rest)
  {
    Regroup(if Special(s[0]) then ['\\', s[0]] else [s[0]], Escaped(s[1..]), "\"", rest);
  }

  lemma Regroup(a: string, b: string, c: string, d: string)
    ensures (a + b) + c + d == a + (b + c + d)
  {
  }

  /** What is read is made of characters of the line, so it has no NUL. */
  lemma {:induction false} ReadFrom(s: string)
    ensures Read(s).Closed? ==> forall c | c in Read(s).value :: c in s
  {
    if s != "" && s[0] != '"' {
      if s[0] == '\\' {
        if |s| > 1 {
          ReadFrom(s[2..]);
        }
      } else {
        ReadFrom(s[1..]);
      }
    }
  }

  // ----- escaping -----

  function Specials(s: string): nat {
    if s == "" then 0 else (if Special(s[0]) then 1 else 0) + Specials(s[1..])
  }

  lemma {:induction false} EscapedLength(s: string)
    ensures |Escaped(s)| == |s| + Specials(s)
  {
    if s != "" {
      EscapedLength(s[1..]);
    }
  }

  function Occurrences(s: string, c: char): nat {
    if s == "" then 0 else (if s[0] == c then 1 else 0) + Occurrences(s[1..], c)
  }

  /** One more character for every quote and every backslash, and for no other. */
  lemma {:induction false} QuotesAndBackslashes(s: string)
    ensures |Escaped(s)| == |s| + Occurrences(s, '"') + Occurrences(s, '\\')
  {
    if s != "" {
      QuotesAndBackslashes(s[1..]);
    }
  }

  /** A backslash hides any character from the reader. */
  lemma BackslashHides(c: char, t: string)
    ensures Read("\\" + [c] + t) == Prepend(c, Read(t))
  {
    ReadSpecial(c, t);
    assert "\\" + [c] + t == ['\\', c] + t;
  }

  /** Without a quote the value is never closed. */
  lemma {:induction false} NoQuoteNoValue(s: string)
    requires '"' !in s
    ensures Read(s) == Unclosed
  {
    if s != "" {
      if s[0] == '\\' && |s| > 1 {
        NoQuoteNoValue(s[2..]);
      } else if s[0] != '\\' {
        NoQuoteNoValue(s[1..]);
      }
    }
  }

  lemma {:induction false} PlainPrefix(s: string, l: nat)
    requires l <= |s| && forall i | 0 <= i < l :: !Special(s[i])
    ensures Escaped(s) == s[..l] + Escaped(s[l..]) && Specials(s) == Specials(s[l..])
  {
    if l > 0 {
      PlainPrefix(s[1..], l - 1);
      assert s[1..][l - 1..] == s[l..] && s[..l] == [s[0]] + s[1..][..l - 1];
    }
  }

  /** strcspn(s + at, "\"\\"): how many characters come before a special one. */
  method Strcspn(s: string, at: nat) returns (l: nat)
    requires at <= |s|
    ensures at + l <= |s| && (forall i | at <= i < at + l :: !Special(s[i]))
    ensures at + l < |s| ==> Special(s[at + l])
  {
    l := 0;
    while at + l < |s| && !Special(s[at + l])
      invariant at + l <= |s| && forall i | at <= i < at + l :: !Special(s[i])
    {
      l := l + 1;
    }
  }

  /** The buffer holds the C string s from its start. */
  ghost predicate Holds(a: array<char>, s: string)
    reads a
  {
    |s| < a.Length && a[..|s|] == s && a[|s|] == NUL && NUL !in s
  }

  /** strncat(a, t, |t|), where n is the length of the string in the buffer. */
  method Strncat(a: array<char>, n: nat, t: string)
    requires n + |t| < a.Length && Holds(a, a[..n]) && NUL !in t
    modifies a
    ensures Holds(a, old(a[..n]) + t)
  {
    forall i | 0 <= i < |t| {
      a[n + i] := t[i];
    }
    a[n + |t|] := NUL;
    assert a[..n + |t|] == old(a[..n]) + t;
  }

  /** The value between quotes, in a buffer of exactly the right size. */
  method EscapeStringValue(s: string) returns (res: array<char>)
    requires NUL !in s
    ensures fresh(res) && res[..] == "\"" + Escaped(s) + "\"" + [NUL]
  {
    var reslen := |s| + |"\"\""| + 1;
    var p := 0;
    while true
      invariant p <= |s| && reslen + Specials(s[p..]) == |s| + 3 + Specials(s)
      decreases |s| - p
    {
      var l := Strcspn(s, p);
      PlainPrefix(s[p..], l);
      assert s[p..][l..] == s[p + l..];
      p := p + l;
      if p == |s| {
        break;
      }
      assert s[p..][1..] == s[p + 1..];
      reslen := reslen + 1;
      p := p + 1;
    }
    EscapedLength(s);
    res := Fill(s, reslen);
  }

  /** The same with the new length; w is what the buffer held. */
  method Append(a: array<char>, n: nat, t: string, ghost w: string) returns (m: nat)
    requires Holds(a, w) && n == |w| && n + |t| < a.Length && NUL !in t
    modifies a
    ensures m == n + |t| && Holds(a, w + t)
  {
    Strncat(a, n, t);
    m := n + |t|;
  }

  /** The buffer holds w, and what is still to be escaped starts at p. */
  predicate Filling(s: string, p: nat, w: string) {
    p <= |s| && w + Escaped(s[p..]) == "\"" + Escaped(s)
  }

  lemma FillPlain(s: string, p: nat, l: nat, w: string)
    requires Filling(s, p, w) && p + l <= |s| && forall i | p <= i < p + l :: !Special(s[i])
    ensures Filling(s, p + l, w + s[p..p + l])
  {
    PlainPrefix(s[p..], l);
    assert s[p..][l..] == s[p + l..] && s[p..][..l] == s[p..p + l];
    hide Escaped;
    assert w + (s[p..p + l] + Escaped(s[p + l..])) == w + s[p..p + l] + Escaped(s[p + l..]);
  }

  lemma FillSpecial(s: string, p: nat, w: string)
    requires Filling(s, p, w) && p < |s| && Special(s[p])
    ensures Filling(s, p + 1, w + "\\" + [s[p]])
  {
    assert s[p..][1..] == s[p + 1..] && Escaped(s[p..]) == ['\\', s[p]] + Escaped(s[p + 1..]);
    hide Escaped;
    assert w + (['\\', s[p]] + Escaped(s[p + 1..])) == w + "\\" + [s[p]] + Escaped(s[p + 1..]);
  }

  lemma FillLength(s: string, p: nat, w: string)
    requires Filling(s, p, w)
    ensures p <= |s| && |w| <= 1 + |Escaped(s)| && (p == |s| ==> w == "\"" + Escaped(s))
  {
    assert |w + Escaped(s[p..])| == |"\"" + Escaped(s)|;
    assert p == |s| ==> w + "" == w;
  }

  method Fill(s: string, reslen: nat) returns (res: array<char>)
    requires NUL !in s && reslen == |Escaped(s)| + 3
    ensures fresh(res) && res[..] == "\"" + Escaped(s) + "\"" + [NUL]
  {
    res := new char[reslen];
    res[0] := NUL;
    ghost var w := "\"";
    var n := Append(res, 0, "\"", "");
    var p := 0;
    assert s[0..] == s;
    while true
      invariant fresh(res) && res.Length == reslen && n == |w| && Holds(res, w) && Filling(s, p, w)
      decreases |s| - p
    {
      hide Escaped, Filling, Holds;
      FillLength(s, p, w);
      var l := Strcspn(s, p);
      FillPlain(s, p, l, w);
      FillLength(s, p + l, w + s[p..p + l]);
      n := Append(res, n, s[p..p + l], w);
      w := w + s[p..p + l];
      p := p + l;
      if p == |s| {
        break;
      }
      FillSpecial(s, p, w);
      FillLength(s, p + 1, w + "\\" + [s[p]]);
      n := Append(res, n, "\\", w);
      n := Append(res, n, [s[p]], w + "\\");
      w := w + "\\" + [s[p]];
      p := p + 1;
    }
    FillLength(s, p, w);
    n := Append(res, n, "\"", w);
    assert res[..] == res[..n] + [NUL];
  }

  // ----- unescaping in place -----

  /** The string at p in the buffer ends before the NUL at end. */
  ghost predicate HoldsAt(a: seq<char>, p: nat, end: nat, s: string) {
    p <= end < |a| && a[p..end] == s && a[end] == NUL && NUL !in s
  }

  function PrependAll(w: string, r: Reading): Reading {
    match r
    case Closed(v, rest) => Closed(w + v, rest)
    case Unclosed => Unclosed
  }

  lemma {:induction false} ReadSegment(w: string, t: string, rest: string)
    requires forall c | c in t :: !Special(c)
    ensures PrependAll(w, Read(t + rest)) == PrependAll(w + t, Read(rest))
    decreases |t|
  {
    if t == "" {
      assert t + rest == rest && w + t == w;
    } else {
      ReadSegment(w + [t[0]], t[1..], rest);
      ReadPlain(t[0], t[1..] + rest);
      hide Read;
      assert t + rest == [t[0]] + (t[1..] + rest) && w + t == w + [t[0]] + t[1..];
      PrependOne(w, t[0], Read(t[1..] + rest));
    }
  }

  lemma PrependOne(w: string, c: char, r: Reading)
    ensures PrependAll(w, Prepend(c, r)) == PrependAll(w + [c], r)
  {
    if r.Closed? {
      assert w + ([c] + r.value) == w + [c] + r.value;
    }
  }

  /** strpbrk(a + i, "\"\\"): the next special character before the NUL. */
  method Strpbrk(a: array<char>, i: nat, ghost end: nat) returns (j: nat)
    requires i <= end < a.Length && a[end] == NUL && NUL !in a[i..end]
    ensures i <= j <= end && (forall c | c in a[i..j] :: !Special(c)) && (j < end <==> Special(a[j]))
  {
    j := i;
    while a[j] != NUL && !Special(a[j])
      invariant i <= j <= end && forall k | i <= k < j :: !Special(a[k])
      decreases end - j
    {
      assert a[j] in a[i..end];
      j := j + 1;
    }
    if j < end {
      assert a[i..end][j - i] == a[j];
    }
  }

  /** The character at i is gone; the NUL at end is there twice. */
  ghost predicate Dropped(a: seq<char>, a': seq<char>, i: nat, end: nat) {
    && i < end < |a| == |a'|
    && (forall k | 0 <= k < i :: a'[k] == a[k])
    && (forall k | i <= k < end :: a'[k] == a[k + 1])
    && (forall k | end <= k < |a| :: a'[k] == a[k])
  }

  /** memmove(a + i, a + i + 1, strlen(a + i)): drops the character at i. */
  method DropChar(a: array<char>, i: nat, ghost end: nat)
    requires i < end < a.Length && a[end] == NUL && NUL !in a[i..end]
    modifies a
    ensures Dropped(old(a[..]), a[..], i, end)
  {
    var n := i;
    while a[n] != NUL
      invariant i <= n <= end
      decreases end - n
    {
      n := n + 1;
    }
    assert n == end;
    forall k | i <= k < n {
      a[k] := a[k + 1];
    }
  }

  /** What is read of the value is in front of p2, what is left begins there; after
      a backslash at the very end p2 has passed the end. */
  ghost predicate Unescaping(a: seq<char>, p: nat, p2: nat, end: nat, line: string) {
    && p <= p2 && end < |a| && a[end] == NUL
    && if p2 <= end
       then HoldsAt(a, p, end, a[p..end]) && PrependAll(a[p..p2], Read(a[p2..end])) == Read(line)
       else p2 == end + 1 < |a| && a[p2] == NUL && Read(line) == Unclosed
  }

  lemma PassPlain(a: seq<char>, p: nat, p2: nat, q: nat, end: nat, line: string)
    requires Unescaping(a, p, p2, end, line) && p2 <= q <= end && forall c | c in a[p2..q] :: !Special(c)
    ensures Unescaping(a, p, q, end, line)
  {
    assert a[p..q] == a[p..p2] + a[p2..q] && a[p2..end] == a[p2..q] + a[q..end];
    ReadSegment(a[p..p2], a[p2..q], a[q..end]);
  }

  lemma PassBackslash(a: seq<char>, a': seq<char>, p: nat, p2: nat, end: nat, line: string)
    requires Unescaping(a, p, p2, end, line) && p2 < end && a[p2] == '\\'
    requires Dropped(a, a', p2, end)
    ensures Unescaping(a', p, p2 + 1, end - 1, line)
  {
    var w, rest := a[p..p2], a[p2..end];
    assert a'[p..p2] == w;
    assert a'[end - 1] == a[end];
    assert a'[end] == a[end];
    if p2 + 1 == end {
      assert rest == "\\";
    } else {
      var c, t := a[p2 + 1], a[p2 + 2..end];
      assert rest == ['\\', c] + t;
      ReadSpecial(c, t);
      PrependOne(w, c, Read(t));
      assert a'[p..p2 + 1] == w + [c] && a'[p2 + 1..end - 1] == t;
      NoNul(a, a', p, p2, end);
    }
  }

  lemma NoNul(a: seq<char>, a': seq<char>, p: nat, p2: nat, end: nat)
    requires p <= p2 && Dropped(a, a', p2, end) && NUL !in a[p..end]
    ensures NUL !in a'[p..end - 1]
  {
    forall k | p <= k < end - 1 ensures a'[k] != NUL {
      assert a[p..end][k - p] == a[k] && a[p..end][k + 1 - p] == a[k + 1];
    }
  }

  lemma BeforeTheEnd(a: seq<char>, p: nat, p2: nat, end: nat, line: string)
    requires Unescaping(a, p, p2, end, line)
    ensures p2 <= end + 1 && p2 < |a| && (p2 <= end ==> NUL !in a[p2..end])
  {
    assert p2 <= end ==> a[p2..end] == a[p..end][p2 - p..];
  }

  lemma AtTheEnd(a: seq<char>, p: nat, q: nat, end: nat, line: string)
    requires Unescaping(a, p, q, end, line) && q >= end
    ensures Read(line) == Unclosed
  {
    assert q == end ==> a[q..q] == "";
  }

  lemma AtTheQuote(a: seq<char>, p: nat, q: nat, end: nat, line: string)
    requires Unescaping(a, p, q, end, line) && q < end && a[q] == '"'
    ensures Read(line).Closed? && Read(line).value == a[p..q] && NUL !in a[p..q]
  {
    assert a[q..end][0] == '"' && a[p..q] + "" == a[p..q];
    assert a[p..q] == a[p..end][..q - p];
  }

  datatype Outcome = NotQuoted | Invalid | Value(value: string)

  function ReadLine(line: string): Outcome {
    if line == "" || line[0] != '"' then NotQuoted
    else
      match Read(line[1..])
      case Closed(v, _) => Value(v)
      case Unclosed => Invalid
  }

  /** The string case of conf_set_sym_val on the text at start; the value is left
      in the buffer, up to the NUL at e. */
  method SetStringVal(a: array<char>, start: nat, ghost end: nat, ghost line: string) returns (r: Outcome, ghost e: nat)
    requires HoldsAt(a[..], start, end, line)
    modifies a
    ensures r == ReadLine(line)
    ensures r.Value? ==> HoldsAt(a[..], start + 1, e, r.value)
  {
    e := end;
    assert line != "" ==> line[0] == a[start];
    if a[start] != '"' {
      return NotQuoted, end;
    }
    assert a[start + 1..end] == line[1..];
    r, e := Unescape(a, start + 1, end, line[1..]);
  }

  method Unescape(a: array<char>, p: nat, ghost end: nat, ghost line: string) returns (r: Outcome, ghost e: nat)
    requires HoldsAt(a[..], p, end, line)
    modifies a
    ensures r == match Read(line) case Closed(v, _) => Value(v) case Unclosed => Invalid
    ensures r.Value? ==> HoldsAt(a[..], p, e, r.value)
  {
    hide Read;
    var p2: nat := p;
    e := end;
    UnescapingStart(a[..], p, end, line);
    while true
      invariant Unescaping(a[..], p, p2, e, line)
      decreases e + 1 - p2
    {
      BeforeTheEnd(a[..], p, p2, e, line);
      var q := Strpbrk(a, p2, if p2 <= e then e else p2);
      if p2 <= e {
        PassPlain(a[..], p, p2, q, e, line);
      }
      p2 := q;
      if !Special(a[p2]) {
        AtTheEnd(a[..], p, p2, e, line);
        return Invalid, e;
      }
      if a[p2] == '"' {
        AtTheQuote(a[..], p, p2, e, line);
        a[p2] := NUL;
        return Value(a[p..p2]), p2;
      }
      ghost var before := a[..];
      DropChar(a, p2, e);
      PassBackslash(before, a[..], p, p2, e, line);
      p2, e := p2 + 1, e - 1;
    }
  }

  lemma UnescapingStart(a: seq<char>, p: nat, end: nat, line: string)
    requires HoldsAt(a, p, end, line)
    ensures Unescaping(a, p, p, end, line)
  {
    assert PrependAll("", Read(line)) == Read(line);
  }
}
