/**
 String values in a .config file: the writer quotes and escapes them, the reader takes the line
 apart and removes the escapes in place. Strings end at their first NUL, as in C.
 */
module KconfigStrings {
  import opened Common

  const NUL := '\0'

  predicate NoNul(s: string) {
    NUL !in s
  }

  predicate Special(c: char) {
    c == '"' || c == '\\'
  }

  // ---------------------------------------------------------------- what is written

  function Escape(c: char): string {
    if Special(c) then ['\\', c] else [c]
  }

  function Body(s: string): string {
    if s == "" then "" else Escape(s[0]) + Body(s[1..])
  }

  function Escaped(s: string): string {
    "\"" + Body(s) + "\""
  }

  lemma {:induction false} BodyJoin(s: string, t: string)
    ensures Body(s + t) == Body(s) + Body(t)
  {
    if s == "" {
      assert s + t == t;
    } else {
      BodyJoin(s[1..], t);
      assert (s + t)[1..] == s[1..] + t && (s + t)[0] == s[0];
      Assoc(Escape(s[0]), Body(s[1..]), Body(t));
    }
  }

  lemma {:induction false} BodyOfPlain(s: string)
    requires forall i :: 0 <= i < |s| ==> !Special(s[i])
    ensures Body(s) == s
  {
    if s != "" {
      BodyOfPlain(s[1..]);
      assert [s[0]] + s[1..] == s;
    }
  }

  /** The length of the stretch at `from` free of quotes and backslashes. */
  method Strcspn(s: string, from: nat) returns (l: nat)
    requires from <= |s|
    ensures from + l <= |s| && (forall i :: from <= i < from + l ==> !Special(s[i]))
    ensures from + l < |s| ==> Special(s[from + l])
  {
    l := 0;
    while from + l < |s| && !Special(s[from + l])
      invariant from + l <= |s|
      invariant forall i :: from <= i < from + l ==> !Special(s[i])
    {
      l := l + 1;
    }
  }

  /** What the escaped form of a string's rest begins with. */
  lemma BodyStep(s: string, from: nat, l: nat)
    requires from + l <= |s| && forall i :: from <= i < from + l ==> !Special(s[i])
    requires from + l < |s| ==> Special(s[from + l])
    ensures Body(s[from..]) == s[from..from + l] + Body(s[from + l..])
    ensures from + l < |s| ==> Body(s[from + l..]) == ['\\', s[from + l]] + Body(s[from + l + 1..])
  {
    assert s[from..] == s[from..from + l] + s[from + l..];
    BodyJoin(s[from..from + l], s[from + l..]);
    BodyOfPlain(s[from..from + l]);
    if from + l < |s| {
      assert s[from + l..][1..] == s[from + l + 1..];
    }
  }

  method Append(res: array<char>, at: nat, s: string) returns (at': nat)
    requires at + |s| <= res.Length
    modifies res
    ensures at' == at + |s| && res[..at'] == old(res[..at]) + s
  {
    var k := 0;
    while k < |s|
      invariant 0 <= k <= |s| && res[..at + k] == old(res[..at]) + s[..k]
    {
      res[at + k] := s[k];
      k := k + 1;
    }
    at' := at + k;
  }

  /** The counting pass. */
  method CountEscaped(s: string) returns (reslen: nat)
    ensures reslen == |Escaped(s)| + 1
  {
    reslen := |s| + 2 + 1;
    var p := 0;
    assert s[0..] == s;
    while true
      invariant p <= |s| && reslen + |Body(s[p..])| == |s| - p + |Body(s)| + 3
      decreases |s| - p
    {
      var l := Strcspn(s, p);
      BodyStep(s, p, l);
      p := p + l;
      if p == |s| {
        return;
      }
      reslen := reslen + 1;
      p := p + 1;
    }
  }

  method AppendEscaped(res: array<char>, at: nat, c: char) returns (at': nat)
    requires at + 2 <= res.Length
    modifies res
    ensures at' == at + 2 && res[..at'] == old(res[..at]) + ['\\', c]
  {
    at' := Append(res, at, "\\");
    at' := Append(res, at', [c]);
  }

  /** What is still to come, split in two. */
  lemma Onward(done: string, chunk: string, rest: string, whole: string)
    requires done + (chunk + rest) == whole
    ensures done + chunk + rest == whole && |done| + |chunk| <= |whole|
  {
    Assoc(done, chunk, rest);
  }

  lemma Begun(s: string)
    ensures "" + "\"" + Body(s[0..]) + "\"" == Escaped(s)
    ensures |Escaped(s)| == |"" + "\"" + Body(s[0..])| + 1
  {
    assert s[0..] == s && "" + "\"" == "\"";
  }

  /** The writing pass: it fills the buffer to the last byte, which is the NUL. */
  method WriteEscaped(s: string, res: array<char>)
    requires res.Length == |Escaped(s)| + 1
    modifies res
    ensures res[..] == Escaped(s) + [NUL]
  {
    hide *;
    Begun(s);
    ghost var whole := "" + "\"" + Body(s[0..]);
    var w := Append(res, 0, "\"");
    var p := 0;
    while true
      invariant p <= |s| && 0 <= w <= res.Length && res[..w] + Body(s[p..]) == whole
      decreases |s| - p
    {
      var l := Strcspn(s, p);
      BodyStep(s, p, l);
      Onward(res[..w], s[p..p + l], Body(s[p + l..]), whole);
      w := Append(res, w, s[p..p + l]);
      p := p + l;
      if p == |s| {
        break;
      }
      Onward(res[..w], ['\\', s[p]], Body(s[p + 1..]), whole);
      w := AppendEscaped(res, w, s[p]);
      p := p + 1;
    }
    NothingLeft(s, p);
    w := Append(res, w, "\"");
    w := Append(res, w, [NUL]);
    assert res[..] == res[..w];
  }

  lemma NothingLeft(s: string, p: nat)
    requires p == |s|
    ensures Body(s[p..]) == ""
  {
  }

  /** What the buffer holds is the escaped string and its NUL, and nothing more was reserved. */
  method EscapeStringValue(s: string) returns (res: array<char>)
    requires NoNul(s)
    ensures fresh(res) && res[..] == Escaped(s) + [NUL]
  {
    var reslen := CountEscaped(s);
    res := new char[reslen];
    WriteEscaped(s, res);
  }

  // ---------------------------------------------------------------- what is read

  /** The part of a string before the first c. */
  function UpTo(s: string, c: char): (t: string)
    ensures |t| <= |s| && t == s[..|t|] && c !in t
    ensures |t| < |s| ==> s[|t|] == c
    ensures |t| == |s| ==> t == s
  {
    if s == "" || s[0] == c then "" else [s[0]] + UpTo(s[1..], c)
  }

  /** The first character c ends what comes before it. */
  lemma {:induction false} UpToIs(t: string, c: char, rest: string)
    requires c !in t
    ensures UpTo(t + [c] + rest, c) == t
  {
    if t != "" {
      UpToIs(t[1..], c, rest);
      assert (t + [c] + rest)[1..] == t[1..] + [c] + rest;
    }
  }

  /** The C string at index p of a buffer. */
  function CString(a: seq<char>, p: nat): string
    requires p <= |a|
  {
    UpTo(a[p..], NUL)
  }

  /** What a value without its opening quote stands for: a backslash is dropped and the character
      behind it kept, and a quote ends the string. Without a closing quote there is none. */
  datatype Reading = NotQuoted | Unterminated | Value(s: string)

  function Unquoted(v: string): Reading {
    if v == "" then Unterminated
    else if v[0] == '"' then Value("")
    else if v[0] != '\\' then Before([v[0]], Unquoted(v[1..]))
    else if |v| == 1 then Unterminated
    else Before([v[1]], Unquoted(v[2..]))
  }

  function Before(s: string, r: Reading): Reading {
    if r.Value? then Value(s + r.s) else r
  }

  function ReadQuoted(v: string): Reading {
    if v == "" || v[0] != '"' then NotQuoted else Unquoted(v[1..])
  }

  /** Reading undoes writing, whatever follows the closing quote. */
  lemma {:induction false} UnquotedBody(s: string, rest: string)
    ensures Unquoted(Body(s) + "\"" + rest) == Value(s)
  {
    if s == "" {
      assert ("" + "\"" + rest)[0] == '"';
    } else {
      UnquotedBody(s[1..], rest);
      var b := Body(s[1..]);
      var head := Escape(s[0]);
      assert Body(s) == head + b;
      assert [s[0]] + s[1..] == s;
      hide Body;
      assert head + b + "\"" + rest == head + (b + "\"" + rest);
      UnquotedHead(s[0], b + "\"" + rest);
    }
  }

  lemma UnquotedHead(c: char, v: string)
    ensures Unquoted(Escape(c) + v) == Before([c], Unquoted(v))
  {
    if Special(c) {
      assert (['\\', c] + v)[2..] == v;
    } else {
      assert ([c] + v)[1..] == v;
    }
  }

  /** Escaped text without its closing quote is refused. */
  lemma {:induction false} UnquotedOpen(s: string)
    ensures Unquoted(Body(s)) == Unterminated
  {
    if s != "" {
      UnquotedOpen(s[1..]);
      if Special(s[0]) {
        assert Body(s)[2..] == Body(s[1..]);
      } else {
        assert Body(s)[1..] == Body(s[1..]);
      }
    }
  }

  lemma {:induction false} UnquotedPlain(chunk: string, rest: string)
    requires forall i :: 0 <= i < |chunk| ==> !Special(chunk[i])
    ensures Unquoted(chunk + rest) == Before(chunk, Unquoted(rest))
  {
    if chunk == "" {
      assert chunk + rest == rest;
      assert forall t: string :: "" + t == t;
    } else {
      UnquotedPlain(chunk[1..], rest);
      assert (chunk + rest)[1..] == chunk[1..] + rest;
      BeforeBefore([chunk[0]], chunk[1..], Unquoted(rest));
      assert [chunk[0]] + chunk[1..] == chunk;
    }
  }

  lemma BeforeBefore(a: string, b: string, r: Reading)
    ensures Before(a, Before(b, r)) == Before(a + b, r)
  {
    if r.Value? {
      assert a + (b + r.s) == (a + b) + r.s;
    }
  }

  // ---------------------------------------------------------------- reading in place

  /** The string at p ends inside the buffer. */
  ghost predicate Ends(a: seq<char>, p: nat) {
    p <= |a| && |CString(a, p)| < |a| - p
  }

  lemma StringFrom(a: seq<char>, p: nat, l: nat)
    requires p + l <= |a| && Ends(a, p) && NUL !in a[p..p + l]
    ensures Ends(a, p + l) && CString(a, p) == a[p..p + l] + CString(a, p + l)
  {
    var t := CString(a, p);
    var s := a[p..];
    assert s[|t|] == NUL;
    var chunk := a[p..p + l];
    assert forall k :: 0 <= k < l ==> s[k] == chunk[k] != NUL;
    assert a[p..p + l] == t[..l];
    var u := t[l..];
    assert a[p + l..] == u + [NUL] + a[p + |t| + 1..] by {
      assert s == t + [NUL] + s[|t| + 1..];
    }
    UpToIs(u, NUL, a[p + |t| + 1..]);
  }

  /** The first quote or backslash of the string at p, if there is one. */
  method Strpbrk(a: array<char>, p: nat) returns (found: bool, q: nat)
    requires Ends(a[..], p)
    ensures p <= q < a.Length && NUL !in a[p..q]
    ensures forall i :: p <= i < q ==> !Special(a[i])
    ensures if found then Special(a[q]) else a[q] == NUL
  {
    q := p;
    ghost var t := CString(a[..], p);
    assert a[..][p..][|t|] == NUL;
    while a[q] != NUL && !Special(a[q])
      invariant p <= q <= p + |t| && NUL !in a[p..q]
      invariant forall i :: p <= i < q ==> !Special(a[i])
      decreases p + |t| - q
    {
      q := q + 1;
    }
    found := a[q] != NUL;
  }

  method Strlen(a: array<char>, p: nat) returns (l: nat)
    requires Ends(a[..], p)
    ensures l == |CString(a[..], p)|
  {
    l := 0;
    ghost var t := CString(a[..], p);
    assert t == a[..][p..][..|t|] && a[..][p..][|t|] == NUL;
    assert forall i :: 0 <= i < |t| ==> a[p + i] == t[i] != NUL;
    while a[p + l] != NUL
      invariant 0 <= l <= |t|
      decreases |t| - l
    {
      l := l + 1;
    }
  }

  method Strdup(a: array<char>, p: nat) returns (s: string)
    requires Ends(a[..], p)
    ensures s == CString(a[..], p)
  {
    var l := Strlen(a, p);
    s := a[p..p + l];
  }

  /** Moves n characters down by one. */
  method MoveDown(a: array<char>, to: nat, n: nat)
    requires to + 1 + n <= a.Length
    modifies a
    ensures a[..to] == old(a[..to]) && a[to + n..] == old(a[to + n..])
    ensures a[to..to + n] == old(a[to + 1..to + 1 + n])
  {
    var k := 0;
    while k < n
      invariant 0 <= k <= n
      invariant a[..to] == old(a[..to]) && a[to + k..] == old(a[to + k..])
      invariant a[to..to + k] == old(a[to + 1..to + 1 + k])
    {
      a[to + k] := a[to + k + 1];
      k := k + 1;
    }
  }

  /** Dropping a backslash moves the rest of the string, with its NUL, down over it; the character
      that comes into its place is not looked at. */
  lemma DropStep(a: seq<char>, a': seq<char>, q: nat)
    requires Ends(a, q) && a[q] == '\\' && |a'| == |a|
    requires var n := |CString(a, q)|; a'[q..q + n] == a[q + 1..q + 1 + n] && a'[q + n..] == a[q + n..]
    ensures Ends(a', q + 1) && Unquoted(CString(a, q)) == Before([a'[q]], Unquoted(CString(a', q + 1)))
    ensures a'[q] == NUL ==> Unquoted(CString(a', q + 1)) == Unterminated
  {
    var r := CString(a, q);
    var n := |r|;
    assert a[q..][0] == '\\' && a[q..][n] == NUL;
    assert n >= 1 && r[0] == '\\';
    assert a'[q..q + n][0] == a'[q] && a[q + 1..q + 1 + n][0] == a[q + 1];
    assert a'[q + n..][0] == a[q + n..][0] == NUL;
    var rest := a'[q + 1..];
    if n == 1 {
      UpToIs("", NUL, rest[1..]);
      assert rest == "" + [NUL] + rest[1..];
    } else {
      assert r[1] == a[q..][1] == a[q + 1];
      var t := r[2..];
      assert a'[q + 1..q + n] == t + [NUL] by {
        assert a'[q + 1..q + n] == a'[q..q + n][1..] == a[q + 1..q + 1 + n][1..] == a[q + 2..q + 1 + n];
        assert a[q..][2..n + 1] == a[q + 2..q + 1 + n];
        assert a[q..][2..n + 1] == r[2..] + [NUL];
      }
      assert rest == t + [NUL] + a'[q + n..];
      UpToIs(t, NUL, a'[q + n..]);
    }
  }

  /** The stretch up to the next quote, backslash or end stands for itself. */
  lemma ScanStep(a: seq<char>, p: nat, p2: nat, q: nat, u: Reading)
    requires p <= p2 <= q < |a| && Ends(a, p2)
    requires NUL !in a[p2..q] && forall i :: p2 <= i < q ==> !Special(a[i])
    requires u == Before(a[p..p2], Unquoted(CString(a, p2)))
    ensures Ends(a, q) && u == Before(a[p..q], Unquoted(CString(a, q)))
    ensures Unquoted(CString(a, p2)) == Before(a[p2..q], Unquoted(CString(a, q)))
    ensures a[q] == NUL ==> u == Unterminated
    ensures a[q] == '"' ==> u == Value(a[p..q]) && Unquoted(CString(a, p2)).Value?
  {
    var chunk := a[p2..q];
    StringFrom(a, p2, q - p2);
    UnquotedPlain(chunk, CString(a, q));
    BeforeBefore(a[p..p2], chunk, Unquoted(CString(a, q)));
    assert a[p..p2] + chunk == a[p..q];
    assert a[q..][0] == a[q];
    BeforeNothing(Value(a[p..q]));
    assert a[p..q] + "" == a[p..q];
  }

  /** After a dropped backslash, one more character is finished. */
  lemma DroppedStep(a: seq<char>, a': seq<char>, p: nat, q: nat, u: Reading)
    requires p <= q && Ends(a, q) && a[q] == '\\' && |a'| == |a| && a'[..q] == a[..q]
    requires
      var n := |CString(a, q)|;
      q + 1 + n <= |a| && a'[q..q + n] == a[q + 1..q + 1 + n] && a'[q + n..] == a[q + n..]
    requires u == Before(a[p..q], Unquoted(CString(a, q)))
    requires NUL !in a[p..q] || Unquoted(CString(a, q)) == Unterminated
    ensures Ends(a', q + 1) && u == Before(a'[p..q + 1], Unquoted(CString(a', q + 1)))
    ensures NUL !in a'[p..q + 1] || Unquoted(CString(a', q + 1)) == Unterminated
  {
    DropStep(a, a', q);
    hide Unquoted, CString;
    var c := [a'[q]];
    BeforeBefore(a[p..q], c, Unquoted(CString(a', q + 1)));
    assert a'[p..q] == a'[..q][p..] == a[..q][p..] == a[p..q];
    assert a'[p..q + 1] == a[p..q] + c;
  }

  lemma CloseString(a: seq<char>, p: nat, q: nat)
    requires p <= q < |a| && NUL !in a[p..q]
    ensures Ends(a[q := NUL], p) && CString(a[q := NUL], p) == a[p..q]
  {
    var t, rest := a[p..q], a[q + 1..];
    assert a[q := NUL][p..] == t + [NUL] + rest;
    UpToIs(t, NUL, rest);
  }

  lemma Opening(a: seq<char>, p0: nat)
    requires Ends(a, p0)
    ensures p0 < |a|
    ensures a[p0] != '"' ==> ReadQuoted(CString(a, p0)) == NotQuoted
    ensures a[p0] == '"' ==> Ends(a, p0 + 1) && a[p0 + 1..p0 + 1] == ""
    ensures a[p0] == '"' ==>
      ReadQuoted(CString(a, p0)) == Before("", Unquoted(CString(a, p0 + 1)))
  {
    var v := CString(a, p0);
    assert a[p0..][0] == a[p0];
    if a[p0] == '"' {
      assert a[p0..p0 + 1] == "\"";
      StringFrom(a, p0, 1);
      assert v[1..] == CString(a, p0 + 1);
      BeforeNothing(Unquoted(v[1..]));
    }
  }

  lemma BeforeNothing(r: Reading)
    ensures Before("", r) == r
  {
    if r.Value? {
      assert "" + r.s == r.s;
    }
  }

  /** Removes escapes in place, from behind the opening quote to the closing one. */
  method Unescape(a: array<char>, p: nat, ghost u: Reading) returns (r: Reading)
    requires Ends(a[..], p) && u == Unquoted(CString(a[..], p))
    modifies a
    ensures r == u
  {
    hide Unquoted, CString, Ends, Before;
    var p2 := p;
    BeforeNothing(u);
    StartAt(a[..], p);
    while true
      invariant p <= p2 <= a.Length && Ends(a[..], p2)
      invariant u == Before(a[..][p..p2], Unquoted(CString(a[..], p2)))
      invariant NUL !in a[..][p..p2] || Unquoted(CString(a[..], p2)) == Unterminated
      decreases a.Length - p2
    {
      var found, q := Strpbrk(a, p2);
      ghost var m := a[..];
      assert m[p2..q] == a[p2..q];
      ScanStep(m, p, p2, q, u);
      if !found {
        return Unterminated;
      }
      if a[q] == '"' {
        assert m[p..q] == m[p..p2] + m[p2..q];
        CloseString(m, p, q);
        a[q] := NUL;
        assert a[..] == m[q := NUL];
        var s := Strdup(a, p);
        return Value(s);
      }
      OpenScan(m, p, p2, q);
      var n := Strlen(a, q);
      MoveDown(a, q, n);
      DroppedStep(m, a[..], p, q, u);
      p2 := q + 1;
    }
  }

  lemma StartAt(a: seq<char>, p: nat)
    requires Ends(a, p)
    ensures p < |a| && a[p..p] == ""
  {
  }

  /** Sets a string symbol from the value at p, removing quotes and escapes in the buffer. */
  method SetStringVal(a: array<char>, p0: nat) returns (r: Reading)
    requires Ends(a[..], p0)
    modifies a
    ensures r == ReadQuoted(CString(old(a[..]), p0))
  {
    Opening(a[..], p0);
    if a[p0] != '"' {
      return NotQuoted;
    }
    ghost var u := Unquoted(CString(a[..], p0 + 1));
    BeforeNothing(u);
    r := Unescape(a, p0 + 1, u);
  }

  lemma OpenScan(a: seq<char>, p: nat, p2: nat, q: nat)
    requires p <= p2 <= q < |a| && Ends(a, p2) && Ends(a, q) && NUL !in a[p2..q]
    requires Unquoted(CString(a, p2)) == Before(a[p2..q], Unquoted(CString(a, q)))
    requires NUL !in a[p..p2] || Unquoted(CString(a, p2)) == Unterminated
    ensures NUL !in a[p..q] || Unquoted(CString(a, q)) == Unterminated
    ensures |CString(a, q)| < |a| - q
  {
    assert a[p..q] == a[p..p2] + a[p2..q];
  }

  // ---------------------------------------------------------------- lines

  predicate IsComment(line: string) {
    line != "" && line[0] == '#'
  }

  /** A line that sets a symbol: its name, without the prefix of all names, and the text of its
      value. A carriage return before the newline is not part of the value. */
  function ParseLine(prefix: string, line: string): Option<(string, string)> {
    if IsComment(line) || !(prefix <= line) then None
    else
      var rest := line[|prefix|..];
      var name := UpTo(rest, '=');
      if |name| == |rest| then None else Some((name, ValueText(rest[|name| + 1..])))
  }

  function ValueText(text: string): string {
    var v := UpTo(text, '\n');
    if |v| < |text| && v != "" && v[|v| - 1] == '\r' then v[..|v| - 1] else v
  }

  function ReadBack(prefix: string, line: string): Option<(string, Reading)> {
    var r := ParseLine(prefix, line);
    if r.None? then None else Some((r.value.0, ReadQuoted(r.value.1)))
  }

  /** The first line of a file, with its newline. */
  function FirstLine(text: string): string {
    var l := UpTo(text, '\n');
    if |l| < |text| then l + "\n" else l
  }

  /** What is printed for a string symbol. */
  function Line(prefix: string, name: string, v: string): string {
    prefix + name + "=" + Escaped(v) + "\n"
  }

  lemma {:induction false} BodyHas(s: string, c: char)
    requires !Special(c)
    ensures c in Body(s) <==> c in s
  {
    if s != "" {
      BodyHas(s[1..], c);
      assert s == [s[0]] + s[1..];
    }
  }

  lemma ParsePrinted(prefix: string, name: string, text: string)
    requires '=' !in name && !IsComment(prefix + name)
    ensures ParseLine(prefix, prefix + name + "=" + text) == Some((name, ValueText(text)))
  {
    hide ValueText, UpTo;
    var line, rest := prefix + name + "=" + text, name + ['='] + text;
    assert line == prefix + rest && line[|prefix|..] == rest;
    assert IsComment(line) <==> IsComment(prefix + name);
    UpToIs(name, '=', text);
    assert rest[|name| + 1..] == text;
  }

  lemma TextOf(v: string)
    requires '\n' !in v && (v == "" || v[|v| - 1] != '\r')
    ensures ValueText(v + "\n") == v
  {
    UpToIs(v, '\n', "");
    assert v + ['\n'] + "" == v + "\n";
  }

  /** A carriage return before a newline inside the value is lost with it. */
  lemma TextOfReturn(v: string)
    requires '\n' !in v
    ensures ValueText(v + "\r" + "\n") == v
  {
    var t := v + "\r";
    UpToIs(t, '\n', "");
    assert t + ['\n'] + "" == t + "\n";
    assert t[..|t| - 1] == v;
  }

  lemma ReadQuotedIs(v: string)
    ensures ReadQuoted("\"" + v) == Unquoted(v)
  {
    assert ("\"" + v)[1..] == v;
  }

  /** The text before a newline inside the value: its opening quote is never closed. */
  lemma CutText(u: string)
    requires '\n' !in u
    ensures ReadQuoted(ValueText("\"" + Body(u) + "\n")) == Unterminated
  {
    hide Body, ValueText, Unquoted, ReadQuoted, Escape;
    BodyHas(u, '\n');
    if u != "" && u[|u| - 1] == '\r' {
      var t := u[..|u| - 1];
      assert u == t + "\r";
      BodyJoin(t, "\r");
      BodyOfPlain("\r");
      BodyHas(t, '\n');
      var v := "\"" + Body(t);
      assert "\"" + Body(u) == v + "\r";
      TextOfReturn(v);
      ReadQuotedIs(Body(t));
      UnquotedOpen(t);
    } else {
      BodyEnd(u);
      TextOf("\"" + Body(u));
      ReadQuotedIs(Body(u));
      UnquotedOpen(u);
    }
  }

  lemma BodyEnd(u: string)
    ensures u == "" ==> Body(u) == ""
    ensures u != "" ==> Body(u) != "" && Body(u)[|Body(u)| - 1] == u[|u| - 1]
  {
    if u != "" {
      var t, c := u[..|u| - 1], u[|u| - 1];
      assert u == t + [c];
      BodyJoin(t, [c]);
      assert Body([c]) == Escape(c) + "";
    }
  }

  /** The first printed line of a value whose text begins with e and a newline. */
  lemma PrintedLine(prefix: string, name: string, e: string, tail: string)
    requires '=' !in name && '\n' !in prefix + name && '\n' !in e
    ensures FirstLine(prefix + name + "=" + e + "\n" + tail) == prefix + name + "=" + (e + "\n")
  {
    var head := prefix + name + "=";
    var l := head + e;
    assert '\n' !in l;
    UpToIs(l, '\n', tail);
    assert head + e + "\n" + tail == l + ['\n'] + tail;
    Assoc(head, e, "\n");
  }

  lemma RoundTripPlain(prefix: string, name: string, v: string)
    requires '=' !in name && '\n' !in prefix + name && '\n' !in v && !IsComment(prefix + name)
    ensures ReadBack(prefix, FirstLine(Line(prefix, name, v))) == Some((name, Value(v)))
  {
    hide ParseLine, ValueText, FirstLine, Unquoted, ReadQuoted, Body;
    BodyHas(v, '\n');
    var e := Escaped(v);
    PrintedLine(prefix, name, e, "");
    assert Line(prefix, name, v) == prefix + name + "=" + e + "\n" + "";
    ParsePrinted(prefix, name, e + "\n");
    TextOf(e);
    UnquotedBody(v, "");
    ReadQuotedIs(Body(v) + "\"");
    assert e == "\"" + (Body(v) + "\"") && Body(v) + "\"" + "" == Body(v) + "\"";
  }

  lemma RoundTripCut(prefix: string, name: string, u: string, w: string)
    requires '=' !in name && '\n' !in prefix + name && '\n' !in u && !IsComment(prefix + name)
    ensures ReadBack(prefix, FirstLine(Line(prefix, name, u + "\n" + w))) == Some((name, Unterminated))
  {
    hide ParseLine, ValueText, FirstLine, Unquoted, ReadQuoted, Body;
    BodyCut(u, w);
    BodyHas(u, '\n');
    var e, tail := "\"" + Body(u), Body(w) + "\"" + "\n";
    PrintedLine(prefix, name, e, tail);
    ParsePrinted(prefix, name, e + "\n");
    var head := prefix + name + "=";
    assert Line(prefix, name, u + "\n" + w) == head + (Escaped(u + "\n" + w) + "\n");
    assert Escaped(u + "\n" + w) + "\n" == e + "\n" + tail;
    assert head + (e + "\n" + tail) == head + e + "\n" + tail;
    CutText(u);
  }

  lemma CommentIsPassedOver(prefix: string, name: string, v: string)
    requires '\n' !in prefix + name && IsComment(prefix + name)
    ensures ReadBack(prefix, FirstLine(Line(prefix, name, v))).None?
  {
    var line := Line(prefix, name, v);
    assert line == (prefix + name) + ("=" + Escaped(v) + "\n");
    assert line[0] == '#' && FirstLine(line)[0] == '#';
  }

  /** A string is read back as it was written exactly when it holds no newline and its name does
      not look like a comment; with a newline the first line of what was written is refused and
      the symbol keeps no value. */
  lemma RoundTrip(prefix: string, name: string, v: string)
    requires '=' !in name && '\n' !in prefix + name
    ensures ReadBack(prefix, FirstLine(Line(prefix, name, v))) == Some((name, Value(v)))
            <==> '\n' !in v && !IsComment(prefix + name)
    ensures '\n' in v && !IsComment(prefix + name)
            ==> ReadBack(prefix, FirstLine(Line(prefix, name, v))) == Some((name, Unterminated))
  {
    hide ReadBack, FirstLine, Line;
    if IsComment(prefix + name) {
      CommentIsPassedOver(prefix, name, v);
    } else if '\n' !in v {
      RoundTripPlain(prefix, name, v);
    } else {
      var u := UpTo(v, '\n');
      var w := v[|u| + 1..];
      assert v == u + "\n" + w;
      RoundTripCut(prefix, name, u, w);
    }
  }

  lemma BodyCut(u: string, w: string)
    ensures Body(u + "\n" + w) == Body(u) + "\n" + Body(w)
  {
    BodyJoin(u + "\n", w);
    BodyJoin(u, "\n");
    BodyOfPlain("\n");
  }

  method Strchr(a: array<char>, p: nat, c: char) returns (found: bool, q: nat)
    requires Ends(a[..], p) && c != NUL
    ensures p <= q < a.Length && NUL !in a[p..q] && c !in a[p..q]
    ensures a[q] == if found then c else NUL
  {
    q := p;
    ghost var t := CString(a[..], p);
    assert a[..][p..][|t|] == NUL;
    while a[q] != NUL && a[q] != c
      invariant p <= q <= p + |t| && NUL !in a[p..q] && c !in a[p..q]
      decreases p + |t| - q
    {
      q := q + 1;
    }
    found := a[q] == c;
  }

  /** A character that ends a piece of the string at p. */
  lemma PieceAt(a: seq<char>, p: nat, q: nat, c: char)
    requires Ends(a, p) && p <= q < |a| && a[q] == c != NUL
    requires NUL !in a[p..q] && c !in a[p..q]
    ensures UpTo(CString(a, p), c) == a[p..q] && q - p < |CString(a, p)|
    ensures Ends(a, q + 1) && CString(a, p)[q - p + 1..] == CString(a, q + 1)
  {
    hide Ends, CString;
    assert a[p..q + 1] == a[p..q] + [c];
    StringFrom(a, p, q + 1 - p);
    UpToIs(a[p..q], c, CString(a, q + 1));
  }

  /** The pieces once the character has become a NUL. */
  lemma SplitAt(a: seq<char>, p: nat, q: nat)
    requires Ends(a, p) && Ends(a, q + 1) && p <= q < |a| && NUL !in a[p..q]
    ensures Ends(a[q := NUL], p) && CString(a[q := NUL], p) == a[p..q]
    ensures Ends(a[q := NUL], q + 1) && CString(a[q := NUL], q + 1) == CString(a, q + 1)
  {
    CloseString(a, p, q);
    assert a[q := NUL][q + 1..] == a[q + 1..];
  }

  /** A character that is not in the string at p. */
  lemma NotThere(a: seq<char>, p: nat, q: nat, c: char)
    requires Ends(a, p) && p <= q < |a| && a[q] == NUL && NUL !in a[p..q] && c !in a[p..q]
    ensures CString(a, p) == a[p..q] == UpTo(CString(a, p), c)
  {
    assert a[p..] == a[p..q] + [NUL] + a[q + 1..];
    UpToIs(a[p..q], NUL, a[q + 1..]);
  }

  method HasPrefix(prefix: string, a: array<char>) returns (yes: bool)
    requires Ends(a[..], 0) && NoNul(prefix)
    ensures yes <==> prefix <= CString(a[..], 0)
    ensures yes ==> Ends(a[..], |prefix|) && CString(a[..], |prefix|) == CString(a[..], 0)[|prefix|..]
  {
    ghost var m := a[..];
    ghost var line := CString(m, 0);
    assert m[0..] == m && m[|line|] == NUL && forall i :: 0 <= i < |line| ==> line[i] == m[i];
    var k := 0;
    while k < |prefix| && a[k] == prefix[k]
      invariant 0 <= k <= |prefix| && k <= |line| && line[..k] == prefix[..k]
    {
      assert a[k] == m[k] && prefix[k] != NUL;
      k := k + 1;
    }
    yes := k == |prefix|;
    if yes {
      assert m[0..k] == line[..k];
      StringFrom(m, 0, k);
    } else {
      assert k < |line| ==> line[k] == m[k] == a[k];
    }
  }

  /** The value's text, ended in place where its line ends. */
  method EndValue(a: array<char>, p: nat)
    requires Ends(a[..], p) && p > 0 && a[p - 1] != '\r'
    modifies a
    ensures Ends(a[..], p) && CString(a[..], p) == ValueText(CString(old(a[..]), p))
  {
    ghost var m := a[..];
    var found, q := Strchr(a, p, '\n');
    assert m[p..q] == a[p..q];
    if found {
      PieceAt(m, p, q, '\n');
      SplitAt(m, p, q);
      a[q] := NUL;
      assert a[..] == m[q := NUL];
      q := q - 1;
      if a[q] == '\r' {
        ghost var m1 := a[..];
        assert q >= p && m[p..q + 1] == m[p..q] + ['\r'];
        assert m1[p..q] == m[p..q];
        CloseString(m1, p, q);
        a[q] := NUL;
        assert a[..] == m1[q := NUL];
      } else {
        assert q >= p ==> m[p..q + 1][q - p] == m[q] == a[q];
      }
    } else {
      NotThere(m, p, q, '\n');
    }
  }

  lemma FirstChar(a: seq<char>)
    requires Ends(a, 0)
    ensures |a| > 0 && (IsComment(CString(a, 0)) <==> a[0] == '#')
  {
    assert a[0..] == a;
  }

  /** The pieces of a line that starts with the prefix, the equals sign found at q or not at all. */
  lemma Taken(prefix: string, a: seq<char>, q: nat)
    requires Ends(a, 0) && !IsComment(CString(a, 0)) && prefix <= CString(a, 0)
    requires Ends(a, |prefix|) && CString(a, |prefix|) == CString(a, 0)[|prefix|..]
    requires |prefix| <= q < |a| && NUL !in a[|prefix|..q] && '=' !in a[|prefix|..q] && a[q] in ['=', NUL]
    ensures a[q] == NUL ==> ParseLine(prefix, CString(a, 0)).None?
    ensures a[q] == '=' ==> Ends(a, q + 1)
    ensures a[q] == '=' ==>
      ParseLine(prefix, CString(a, 0)) == Some((a[|prefix|..q], ValueText(CString(a, q + 1))))
  {
    hide ValueText, UpTo, Ends, CString;
    if a[q] == NUL {
      NotThere(a, |prefix|, q, '=');
    } else {
      PieceAt(a, |prefix|, q, '=');
    }
  }

  /** Takes a line apart in place: the name and the value become strings of their own, the value
      at the index returned. */
  method ReadLine(prefix: string, a: array<char>) returns (r: Option<(string, nat)>)
    requires Ends(a[..], 0) && NoNul(prefix)
    modifies a
    ensures
      var parsed := ParseLine(prefix, CString(old(a[..]), 0));
      && (r.None? <==> parsed.None?)
      && (r.Some? ==> Ends(a[..], r.value.1) && parsed.value == (r.value.0, CString(a[..], r.value.1)))
  {
    hide ValueText, CString, UpTo, Ends;
    ghost var m := a[..];
    FirstChar(m);
    if a[0] == '#' {
      return None;
    }
    var yes := HasPrefix(prefix, a);
    if !yes {
      return None;
    }
    hide ParseLine;
    var start := |prefix|;
    var found, q := Strchr(a, start, '=');
    assert m[start..q] == a[start..q];
    Taken(prefix, m, q);
    if !found {
      return None;
    }
    SplitAt(m, start, q);
    a[q] := NUL;
    assert a[..] == m[q := NUL];
    var name := Strdup(a, start);
    EndValue(a, q + 1);
    return Some((name, q + 1));
  }

  /** One line of the file, for a string symbol. */
  method ReadAssignment(prefix: string, a: array<char>) returns (r: Option<(string, Reading)>)
    requires Ends(a[..], 0) && NoNul(prefix)
    modifies a
    ensures r == ReadBack(prefix, CString(old(a[..]), 0))
  {
    var l := ReadLine(prefix, a);
    if l.None? {
      return None;
    }
    var reading := SetStringVal(a, l.value.1);
    return Some((l.value.0, reading));
  }

  /** A string and its NUL, as a C string. */
  lemma Terminated(s: string)
    requires NoNul(s)
    ensures Ends(s + [NUL], 0) && CString(s + [NUL], 0) == s
  {
    UpToIs(s, NUL, "");
    assert (s + [NUL])[0..] == s + [NUL] + "";
  }

  lemma LineHasNoNul(prefix: string, name: string, v: string)
    requires NoNul(prefix) && NoNul(name) && NoNul(v)
    ensures NoNul(Escaped(v)) && NoNul(FirstLine(Line(prefix, name, v)))
  {
    hide Body, NoNul;
    NulInBody(v);
    assert NoNul("\"" + Body(v) + "\"") by {
      Together("\"", Body(v));
      Together("\"" + Body(v), "\"");
    }
    var line := Line(prefix, name, v);
    assert NoNul(line) by {
      Together(prefix, name);
      Together(prefix + name, "=");
      Together(prefix + name + "=", Escaped(v));
      Together(prefix + name + "=" + Escaped(v), "\n");
    }
    var l := UpTo(line, '\n');
    Together(l, line[|l|..]);
    assert l + line[|l|..] == line;
    Together(l, "\n");
  }

  lemma NulInBody(v: string)
    requires NoNul(v)
    ensures NoNul(Body(v))
  {
    BodyHas(v, NUL);
  }

  lemma Together(s: string, t: string)
    ensures NoNul(s + t) <==> NoNul(s) && NoNul(t)
    ensures NoNul("\"") && NoNul("=") && NoNul("\n")
  {
    assert forall i :: 0 <= i < |s| ==> (s + t)[i] == s[i];
    assert forall i :: 0 <= i < |t| ==> (s + t)[|s| + i] == t[i];
  }

  method Buffer(s: string) returns (a: array<char>)
    requires NoNul(s)
    ensures fresh(a) && Ends(a[..], 0) && CString(a[..], 0) == s
  {
    hide *;
    Terminated(s);
    a := new char[|s| + 1];
    var end := Append(a, 0, s + [NUL]);
    assert a[..] == s + [NUL] by {
      assert a[..] == a[..end];
    }
  }

  /** Writer and reader on their buffers: the escaped value is printed behind the name, and the
      first line of the file goes back through the reader. */
  method SaveAndLoad(prefix: string, name: string, v: string) returns (r: Option<(string, Reading)>)
    requires NoNul(prefix) && NoNul(name) && NoNul(v)
    requires '=' !in name && '\n' !in prefix + name
    ensures r == Some((name, Value(v))) <==> '\n' !in v && !IsComment(prefix + name)
    ensures '\n' in v && !IsComment(prefix + name) ==> r == Some((name, Unterminated))
  {
    hide *;
    LineHasNoNul(prefix, name, v);
    RoundTrip(prefix, name, v);
    var res := EscapeStringValue(v);
    Terminated(Escaped(v));
    var text := Strdup(res, 0);
    var file := prefix + name + "=" + text + "\n";
    assert file == Line(prefix, name, v) by {
      PrintedIs(prefix, name, v);
    }
    var first := FirstLine(file);
    var line := Buffer(first);
    r := ReadAssignment(prefix, line);
    assert r == ReadBack(prefix, first);
  }

  lemma PrintedIs(prefix: string, name: string, v: string)
    ensures Line(prefix, name, v) == prefix + name + "=" + Escaped(v) + "\n"
  {
  }
}
