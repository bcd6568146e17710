/** Whitespace, trimming and line splitting as the browser script and the mail server see them. */
module TextOps {

  /** The two runtimes of the site: the browser script and the Flask server. */
  datatype Runtime = JavaScript | Python

  /** ECMAScript WhiteSpace and LineTerminator code points (sections 12.2 and 12.3 of ECMA-262):
      what String.prototype.trim removes and what the regular-expression class \s matches. */
  predicate IsJsSpace(c: char) {
    c == '\t' || c == '\n' || c == '\U{000B}' || c == '\U{000C}' || c == '\r' || c == ' '
    || c == '\U{00A0}' || c == '\U{1680}' || ('\U{2000}' <= c <= '\U{200A}')
    || c == '\U{2028}' || c == '\U{2029}' || c == '\U{202F}' || c == '\U{205F}'
    || c == '\U{3000}' || c == '\U{FEFF}'
  }

  /** The code points for which Python's str.isspace holds, which str.strip() removes. */
  predicate IsPySpace(c: char) {
    c == '\t' || c == '\n' || c == '\U{000B}' || c == '\U{000C}' || c == '\r'
    || ('\U{001C}' <= c <= '\U{001F}') || c == ' ' || c == '\U{0085}' || c == '\U{00A0}'
    || c == '\U{1680}' || ('\U{2000}' <= c <= '\U{200A}') || c == '\U{2028}' || c == '\U{2029}'
    || c == '\U{202F}' || c == '\U{205F}' || c == '\U{3000}'
  }

  predicate IsSpace(rt: Runtime, c: char) {
    match rt
    case JavaScript => IsJsSpace(c)
    case Python => IsPySpace(c)
  }

  predicate AllSpace(rt: Runtime, s: string) {
    forall k | 0 <= k < |s| :: IsSpace(rt, s[k])
  }

  /** Neither end of `s` is whitespace. */
  predicate IsTrimmed(rt: Runtime, s: string) {
    s == [] || (!IsSpace(rt, s[0]) && !IsSpace(rt, s[|s| - 1]))
  }

  /** `r` is what is left of `s` once the whitespace run `s[..i]` and the whitespace run after
      `r` are cut off. */
  predicate CutFrom(rt: Runtime, s: string, i: int, r: string) {
    0 <= i && i + |r| <= |s| && s[i..i + |r|] == r
    && AllSpace(rt, s[..i]) && AllSpace(rt, s[i + |r|..])
  }

  function TrimStart(rt: Runtime, s: string): (r: string)
    ensures |r| <= |s| && r == s[|s| - |r|..]
    ensures AllSpace(rt, s[..|s| - |r|])
    ensures r == [] || !IsSpace(rt, r[0])
  {
    if s != [] && IsSpace(rt, s[0]) then TrimStart(rt, s[1..]) else s
  }

  function TrimEnd(rt: Runtime, s: string): (r: string)
    ensures |r| <= |s| && r == s[..|r|]
    ensures AllSpace(rt, s[|r|..])
    ensures r == [] || !IsSpace(rt, r[|r| - 1])
  {
    if s != [] && IsSpace(rt, s[|s| - 1]) then TrimEnd(rt, s[..|s| - 1]) else s
  }

  /** `s.trim()` in the browser script, `s.strip()` in the server. */
  function Trim(rt: Runtime, s: string): (r: string)
    ensures IsTrimmed(rt, r)
    ensures CutFrom(rt, s, |s| - |TrimStart(rt, s)|, r)
    ensures r == [] <==> AllSpace(rt, s)
  {
    var t := TrimStart(rt, s);
    TrimParts(rt, s, t, TrimEnd(rt, t));
    TrimEnd(rt, t)
  }

  /** What the two halves of Trim promise, put together. */
  lemma TrimParts(rt: Runtime, s: string, t: string, r: string)
    requires |t| <= |s| && t == s[|s| - |t|..] && AllSpace(rt, s[..|s| - |t|])
    requires t == [] || !IsSpace(rt, t[0])
    requires |r| <= |t| && r == t[..|r|] && AllSpace(rt, t[|r|..])
    requires r == [] || !IsSpace(rt, r[|r| - 1])
    ensures IsTrimmed(rt, r)
    ensures CutFrom(rt, s, |s| - |t|, r)
    ensures r == [] <==> AllSpace(rt, s)
  {
    var i := |s| - |t|;
    assert s[i..i + |r|] == r;
    assert s[i + |r|..] == t[|r|..];
    if t != [] {
      assert t[0] == s[i] && t[0] == t[0..][0];
      assert r != [] && r[0] == t[0];
    } else {
      assert s[..|s|] == s;
    }
  }

  lemma {:induction false} TrimStartSkips(rt: Runtime, p: string, t: string)
    requires AllSpace(rt, p)
    requires t == [] || !IsSpace(rt, t[0])
    ensures TrimStart(rt, p + t) == t
    decreases |p|
  {
    if p != [] {
      assert (p + t)[0] == p[0];
      assert (p + t)[1..] == p[1..] + t;
      TrimStartSkips(rt, p[1..], t);
    } else {
      assert p + t == t;
    }
  }

  lemma {:induction false} TrimEndSkips(rt: Runtime, t: string, q: string)
    requires AllSpace(rt, q)
    requires t == [] || !IsSpace(rt, t[|t| - 1])
    ensures TrimEnd(rt, t + q) == t
    decreases |q|
  {
    if q != [] {
      assert (t + q)[|t + q| - 1] == q[|q| - 1];
      assert (t + q)[..|t + q| - 1] == t + q[..|q| - 1];
      TrimEndSkips(rt, t, q[..|q| - 1]);
    } else {
      assert t + q == t;
    }
  }

  /** Trimming has exactly one possible outcome: whatever lies between two whitespace runs,
      provided its own ends are not whitespace. */
  lemma TrimUnique(rt: Runtime, p: string, m: string, q: string)
    requires AllSpace(rt, p) && AllSpace(rt, q) && IsTrimmed(rt, m)
    ensures Trim(rt, p + m + q) == m
  {
    if m == [] {
      assert AllSpace(rt, p + m + q) by {
        forall k | 0 <= k < |p + m + q| ensures IsSpace(rt, (p + m + q)[k]) {
          if k < |p| { assert (p + m + q)[k] == p[k]; }
          else { assert (p + m + q)[k] == q[k - |p|]; }
        }
      }
    } else {
      assert p + m + q == p + (m + q);
      TrimStartSkips(rt, p, m + q);
      TrimEndSkips(rt, m, q);
    }
  }

  lemma TrimIdempotent(rt: Runtime, s: string)
    ensures Trim(rt, Trim(rt, s)) == Trim(rt, s)
  {
    var r := Trim(rt, s);
    assert [] + r + [] == r;
    TrimUnique(rt, [], r, []);
  }

  /** `s.split('\n')`: the lines of `s`, the last one being what follows the final newline. */
  function Lines(s: string): (r: seq<string>)
    ensures |r| >= 1
    ensures forall k | 0 <= k < |r| :: '\n' !in r[k]
  {
    if s == [] then [""]
    else
      var rest := Lines(s[1..]);
      if s[0] == '\n' then [""] + rest else [[s[0]] + rest[0]] + rest[1..]
  }

  /** `'\n'.join(ls)`. */
  function Unlines(ls: seq<string>): string
    requires |ls| >= 1
  {
    if |ls| == 1 then ls[0] else ls[0] + "\n" + Unlines(ls[1..])
  }

  lemma {:induction false} LinesAppend(a: string, b: string)
    ensures Lines(a + "\n" + b) == Lines(a) + Lines(b)
    decreases |a|
  {
    if a == [] {
      assert a + "\n" + b == "\n" + b;
      assert ("\n" + b)[1..] == b;
    } else {
      assert (a + "\n" + b)[1..] == a[1..] + "\n" + b;
      assert (a + "\n" + b)[0] == a[0];
      LinesAppend(a[1..], b);
    }
  }

  lemma {:induction false} LinesOfLine(a: string)
    requires '\n' !in a
    ensures Lines(a) == [a]
    decreases |a|
  {
    if a != [] {
      assert a[0] in a;
      assert forall c | c in a[1..] :: c in a;
      LinesOfLine(a[1..]);
      assert [a[0]] + a[1..] == a;
    }
  }

  /** Joining the lines of `s` with newlines gives `s` back. */
  lemma {:induction false} UnlinesLines(s: string)
    ensures Unlines(Lines(s)) == s
    decreases |s|
  {
    if s != [] {
      UnlinesLines(s[1..]);
      var rest := Lines(s[1..]);
      if s[0] == '\n' {
        assert ([""] + rest)[1..] == rest;
        assert s == "\n" + s[1..];
      } else if |rest| == 1 {
        assert [s[0]] + s[1..] == s;
      } else {
        var ls := [[s[0]] + rest[0]] + rest[1..];
        assert ls[1..] == rest[1..];
        assert Unlines(rest) == rest[0] + "\n" + Unlines(rest[1..]);
        assert s == [s[0]] + s[1..];
      }
    }
  }

  /** Joining two non-empty lists of lines is joining each and putting a newline between. */
  lemma {:induction false} UnlinesAppend(a: seq<string>, b: seq<string>)
    requires |a| >= 1 && |b| >= 1
    ensures Unlines(a + b) == Unlines(a) + "\n" + Unlines(b)
    decreases |a|
  {
    if |a| == 1 {
      assert (a + b)[1..] == b;
    } else {
      assert (a + b)[1..] == a[1..] + b;
      UnlinesAppend(a[1..], b);
    }
  }

  /** Splitting a newline-join of newline-free lines gives the lines back. */
  lemma {:induction false} LinesUnlines(ls: seq<string>)
    requires |ls| >= 1
    requires forall k | 0 <= k < |ls| :: '\n' !in ls[k]
    ensures Lines(Unlines(ls)) == ls
    decreases |ls|
  {
    LinesOfLine(ls[0]);
    if |ls| > 1 {
      LinesUnlines(ls[1..]);
      LinesAppend(ls[0], Unlines(ls[1..]));
      assert [ls[0]] + ls[1..] == ls;
    }
  }
}
