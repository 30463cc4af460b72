/**
 * The handful of Python `str` operations the script relies on: `strip()` with and
 * without an argument, `startswith`, `split(sep, 1)`, `in` (substring), `join`,
 * slicing with `[:n]`, and `lower()` / `upper()` restricted to ASCII letters.
 */
module PyStr {

  /** The characters for which Python's `str.isspace()` holds; `strip()` with no argument removes these. */
  ghost predicate AllIn(s: string, cs: set<char>)
  {
    forall k :: 0 <= k < |s| ==> s[k] in cs
  }

  const Whitespace: set<char> :=
    {'\t', '\n', '\U{B}', '\U{C}', '\r', '\U{1C}', '\U{1D}', '\U{1E}', '\U{1F}', ' ',
     '\U{85}', '\U{A0}', '\U{1680}',
     '\U{2000}', '\U{2001}', '\U{2002}', '\U{2003}', '\U{2004}', '\U{2005}',
     '\U{2006}', '\U{2007}', '\U{2008}', '\U{2009}', '\U{200A}',
     '\U{2028}', '\U{2029}', '\U{202F}', '\U{205F}', '\U{3000}'}

  /** `s.lstrip(cs)`: drop the longest prefix made of characters of `cs`. */
  function TrimLeft(s: string, cs: set<char>): string
    decreases |s|
  {
    if s != [] && s[0] in cs then TrimLeft(s[1..], cs) else s
  }

  /** `s.rstrip(cs)`: drop the longest suffix made of characters of `cs`. */
  function TrimRight(s: string, cs: set<char>): string
    decreases |s|
  {
    if s != [] && s[|s| - 1] in cs then TrimRight(s[..|s| - 1], cs) else s
  }

  /** `s.strip(cs)`: characters of `cs` are removed from both ends, with no pairing of any kind. */
  function StripChars(s: string, cs: set<char>): string
  {
    TrimRight(TrimLeft(s, cs), cs)
  }

  /** What `lstrip` leaves is a suffix; everything it dropped is in `cs`; what is left does not start with one. */
  lemma {:induction false} TrimLeftShape(s: string, cs: set<char>)
    ensures var r := TrimLeft(s, cs);
      && |r| <= |s| && r == s[|s| - |r|..]
      && AllIn(s[..|s| - |r|], cs)
      && (r == [] || r[0] !in cs)
    decreases |s|
  {
    if s != [] && s[0] in cs {
      TrimLeftShape(s[1..], cs);
      var r := TrimLeft(s, cs);
      assert s[..|s| - |r|] == [s[0]] + s[1..][..|s| - 1 - |r|];
    }
  }

  /** What `rstrip` leaves is a prefix; everything it dropped is in `cs`; what is left does not end with one. */
  lemma {:induction false} TrimRightShape(s: string, cs: set<char>)
    ensures var r := TrimRight(s, cs);
      && |r| <= |s| && r == s[..|r|]
      && AllIn(s[|r|..], cs)
      && (r == [] || r[|r| - 1] !in cs)
    decreases |s|
  {
    if s != [] && s[|s| - 1] in cs {
      var n := |s| - 1;
      TrimRightShape(s[..n], cs);
      var r := TrimRight(s, cs);
      assert s[|r|..] == s[..n][|r|..] + [s[n]];
    }
  }

  /** Neither end of what `strip` leaves is in `cs`, and it is a piece of the original with only `cs` around it. */
  lemma StripShape(s: string, cs: set<char>)
    ensures var r := StripChars(s, cs);
      && (r == [] || (r[0] !in cs && r[|r| - 1] !in cs))
      && exists i :: 0 <= i <= |s| - |r| && s[i..i + |r|] == r && AllIn(s[..i], cs) && AllIn(s[i + |r|..], cs)
  {
    var t := TrimLeft(s, cs);
    TrimLeftShape(s, cs);
    TrimRightShape(t, cs);
    var r := TrimRight(t, cs);
    var i := |s| - |t|;
    assert s[i..i + |r|] == r;
    assert s[i + |r|..] == t[|r|..];
  }

  /** `s.strip()` */
  function Strip(s: string): string
  {
    StripChars(s, Whitespace)
  }

  lemma {:induction false} TrimLeftPadded(pad: string, t: string, cs: set<char>)
    requires AllIn(pad, cs)
    requires t == [] || t[0] !in cs
    ensures TrimLeft(pad + t, cs) == t
    decreases |pad|
  {
    if pad != [] {
      assert (pad + t)[1..] == pad[1..] + t;
      TrimLeftPadded(pad[1..], t, cs);
    }
  }

  lemma {:induction false} TrimRightPadded(t: string, pad: string, cs: set<char>)
    requires AllIn(pad, cs)
    requires t == [] || t[|t| - 1] !in cs
    ensures TrimRight(t + pad, cs) == t
    decreases |pad|
  {
    if pad != [] {
      var n := |pad| - 1;
      assert (t + pad)[..|t + pad| - 1] == t + pad[..n];
      TrimRightPadded(t, pad[..n], cs);
    }
  }

  /**
   * `strip` has exactly one answer: whatever padding made of `cs` surrounds a core
   * whose ends are not in `cs`, stripping yields that core.
   */
  lemma StripPadded(lead: string, core: string, trail: string, cs: set<char>)
    requires AllIn(lead, cs) && AllIn(trail, cs)
    requires core == [] || (core[0] !in cs && core[|core| - 1] !in cs)
    ensures StripChars(lead + core + trail, cs) == core
  {
    if core == [] {
      assert lead + core + trail == (lead + trail) + [];
      TrimLeftPadded(lead + trail, [], cs);
    } else {
      assert lead + core + trail == lead + (core + trail);
      TrimLeftPadded(lead, core + trail, cs);
      TrimRightPadded(core, trail, cs);
    }
  }

  predicate StartsWith(s: string, prefix: string)
  {
    |prefix| <= |s| && s[..|prefix|] == prefix
  }

  /** `s.split(c, 1)[1]` when `c` occurs in `s`: the text after the first `c` (empty when there is none). */
  function AfterFirst(s: string, c: char): string
  {
    if s == [] then [] else if s[0] == c then s[1..] else AfterFirst(s[1..], c)
  }

  /** The text after the first `c` is everything past a `c`-free stem and that `c`. */
  lemma {:induction false} AfterFirstSplit(stem: string, c: char, v: string)
    requires c !in stem
    ensures AfterFirst(stem + [c] + v, c) == v
  {
    if stem == [] {
      assert stem + [c] + v == [c] + v;
    } else {
      assert (stem + [c] + v)[1..] == stem[1..] + [c] + v;
      AfterFirstSplit(stem[1..], c, v);
    }
  }

  /** Python's substring test `t in s`. */
  predicate Contains(s: string, t: string)
    decreases |s|
  {
    StartsWith(s, t) || (s != [] && Contains(s[1..], t))
  }

  predicate OccursAt(s: string, t: string, i: int)
  {
    0 <= i && i + |t| <= |s| && s[i..i + |t|] == t
  }

  /** The recursive substring test agrees with "some position of `s` starts a copy of `t`". */
  lemma {:induction false} ContainsIff(s: string, t: string)
    ensures Contains(s, t) <==> exists i :: OccursAt(s, t, i)
    decreases |s|
  {
    if StartsWith(s, t) {
      assert OccursAt(s, t, 0);
    } else if s == [] {
      assert |t| > 0;
    } else {
      ContainsIff(s[1..], t);
      if exists i :: OccursAt(s[1..], t, i) {
        var i :| OccursAt(s[1..], t, i);
        assert s[1..][i..i + |t|] == s[i + 1..i + 1 + |t|];
        assert OccursAt(s, t, i + 1);
      }
      if exists i :: OccursAt(s, t, i) {
        var i :| OccursAt(s, t, i);
        assert i != 0;
        assert s[1..][i - 1..i - 1 + |t|] == s[i..i + |t|];
        assert OccursAt(s[1..], t, i - 1);
      }
    }
  }

  function LowerChar(c: char): char
  {
    if 'A' <= c <= 'Z' then (c as int + 32) as char else c
  }

  function UpperChar(c: char): char
  {
    if 'a' <= c <= 'z' then (c as int - 32) as char else c
  }

  /** `s.lower()` on ASCII letters; every other character is left as it is. */
  function Lower(s: string): string
  {
    seq(|s|, i requires 0 <= i < |s| => LowerChar(s[i]))
  }

  /** `s.upper()` on ASCII letters; every other character is left as it is. */
  function Upper(s: string): string
  {
    seq(|s|, i requires 0 <= i < |s| => UpperChar(s[i]))
  }

  /** `sep.join(parts)` */
  function Join(parts: seq<string>, sep: string): string
  {
    if parts == [] then []
    else if |parts| == 1 then parts[0]
    else parts[0] + sep + Join(parts[1..], sep)
  }

  /** `s[:n]` */
  function Take(s: string, n: nat): (r: string)
    ensures |r| == if |s| <= n then |s| else n
    ensures StartsWith(s, r)
    ensures |s| <= n ==> r == s
  {
    if |s| <= n then s else s[..n]
  }
}
