/**
 * The handful of Python `str` operations the backend relies on, over ASCII
 * text: `strip`, `lower`/`upper`, `startswith`/`endswith`, the substring test
 * `part in s`, `split('\n')`, `"\n".join(...)` and slicing `s[:n]`.
 */
module PyText {

  /** The ASCII characters for which Python's `str.isspace()` holds: what `str.strip()` removes. */
  const Whitespace: set<char> :=
    {' ', '\t', '\n', '\r', '\U{0B}', '\U{0C}', '\U{1C}', '\U{1D}', '\U{1E}', '\U{1F}'}

  ghost predicate AllIn(s: string, chars: set<char>) {
    forall c :: c in s ==> c in chars
  }

  /** `s.lstrip(chars)` */
  function TrimStart(s: string, chars: set<char>): (r: string)
    ensures |r| <= |s|
    ensures r == [] || r[0] !in chars
    decreases |s|
  {
    if |s| > 0 && s[0] in chars then TrimStart(s[1..], chars) else s
  }

  /** `s.rstrip(chars)` */
  function TrimEnd(s: string, chars: set<char>): (r: string)
    ensures |r| <= |s|
    ensures r == [] || (r[0] == s[0] && r[|r| - 1] !in chars)
    decreases |s|
  {
    if |s| > 0 && s[|s| - 1] in chars then TrimEnd(s[..|s| - 1], chars) else s
  }

  /** `s.strip(chars)`: neither end of the result is in `chars`. */
  function StripChars(s: string, chars: set<char>): (r: string)
    ensures |r| <= |s|
    ensures r == [] || (r[0] !in chars && r[|r| - 1] !in chars)
  {
    TrimEnd(TrimStart(s, chars), chars)
  }

  /** `s.strip()` */
  function Strip(s: string): string {
    StripChars(s, Whitespace)
  }

  lemma {:induction false} TrimStartDropsPad(pad: string, s: string, chars: set<char>)
    requires AllIn(pad, chars)
    requires s == [] || s[0] !in chars
    ensures TrimStart(pad + s, chars) == s
    decreases |pad|
  {
    if pad == [] {
      assert pad + s == s;
    } else {
      assert (pad + s)[0] == pad[0];
      assert (pad + s)[1..] == pad[1..] + s;
      TrimStartDropsPad(pad[1..], s, chars);
    }
  }

  lemma {:induction false} TrimEndDropsPad(s: string, pad: string, chars: set<char>)
    requires AllIn(pad, chars)
    requires s == [] || s[|s| - 1] !in chars
    ensures TrimEnd(s + pad, chars) == s
    decreases |pad|
  {
    if pad == [] {
      assert s + pad == s;
    } else {
      var n := |s + pad|;
      assert (s + pad)[n - 1] == pad[|pad| - 1];
      assert (s + pad)[..n - 1] == s + pad[..|pad| - 1];
      TrimEndDropsPad(s, pad[..|pad| - 1], chars);
    }
  }

  /**
   * `strip(chars)` removes exactly the surrounding runs of `chars`: whatever
   * padding surrounds a core that neither starts nor ends with one of them,
   * the core is what is left.
   */
  lemma StripCharsExact(pre: string, core: string, post: string, chars: set<char>)
    requires AllIn(pre, chars) && AllIn(post, chars)
    requires core == [] || (core[0] !in chars && core[|core| - 1] !in chars)
    ensures StripChars(pre + core + post, chars) == core
  {
    if core == [] {
      assert pre + core + post == (pre + post) + [];
      assert AllIn(pre + post, chars);
      TrimStartDropsPad(pre + post, [], chars);
    } else {
      assert pre + core + post == pre + (core + post);
      TrimStartDropsPad(pre, core + post, chars);
      TrimEndDropsPad(core, post, chars);
    }
  }

  /** Every string is its stripped form surrounded by runs of the stripped characters. */
  lemma StripCharsSplits(s: string, chars: set<char>) returns (pre: string, post: string)
    ensures AllIn(pre, chars) && AllIn(post, chars)
    ensures s == pre + StripChars(s, chars) + post
  {
    var t := TrimStart(s, chars);
    pre := TrimStartSplits(s, chars);
    post := TrimEndSplits(t, chars);
    assert s == pre + (TrimEnd(t, chars) + post);
  }

  lemma {:induction false} TrimStartSplits(s: string, chars: set<char>) returns (pre: string)
    ensures AllIn(pre, chars) && s == pre + TrimStart(s, chars)
    decreases |s|
  {
    if |s| > 0 && s[0] in chars {
      var rest := TrimStartSplits(s[1..], chars);
      pre := [s[0]] + rest;
      assert s == [s[0]] + s[1..];
    } else {
      pre := [];
    }
  }

  lemma {:induction false} TrimEndSplits(s: string, chars: set<char>) returns (post: string)
    ensures AllIn(post, chars) && s == TrimEnd(s, chars) + post
    decreases |s|
  {
    if |s| > 0 && s[|s| - 1] in chars {
      var rest := TrimEndSplits(s[..|s| - 1], chars);
      post := rest + [s[|s| - 1]];
      assert s == s[..|s| - 1] + [s[|s| - 1]];
    } else {
      post := [];
    }
  }

  /** Stripping twice is stripping once. */
  lemma StripCharsIdempotent(s: string, chars: set<char>)
    ensures StripChars(StripChars(s, chars), chars) == StripChars(s, chars)
  {
    var r := StripChars(s, chars);
    assert [] + r + [] == r;
    StripCharsExact([], r, [], chars);
  }

  /** Extra padding of the stripped characters on either side never changes the stripped form. */
  lemma StripCharsIgnoresPadding(left: string, s: string, right: string, chars: set<char>)
    requires AllIn(left, chars) && AllIn(right, chars)
    ensures StripChars(left + s + right, chars) == StripChars(s, chars)
  {
    var pre, post := StripCharsSplits(s, chars);
    var core := StripChars(s, chars);
    assert left + s + right == (left + pre) + core + (post + right);
    assert AllIn(left + pre, chars);
    assert AllIn(post + right, chars);
    StripCharsExact(left + pre, core, post + right, chars);
  }

  function LowerChar(c: char): char {
    if 'A' <= c <= 'Z' then (c as int + 32) as char else c
  }

  function UpperChar(c: char): char {
    if 'a' <= c <= 'z' then (c as int - 32) as char else c
  }

  /** `s.lower()` */
  function Lower(s: string): (r: string)
    ensures |r| == |s|
  {
    seq(|s|, i requires 0 <= i < |s| => LowerChar(s[i]))
  }

  /** `s.upper()` */
  function Upper(s: string): (r: string)
    ensures |r| == |s|
  {
    seq(|s|, i requires 0 <= i < |s| => UpperChar(s[i]))
  }

  /** `s` and `t` differ at most in the case of their letters. */
  predicate SameUpToCase(s: string, t: string) {
    |s| == |t| && forall i :: 0 <= i < |s| ==> LowerChar(s[i]) == LowerChar(t[i])
  }

  /** Two strings that differ only in letter case have the same lower-case form, and conversely. */
  lemma SameUpToCaseLower(s: string, t: string)
    ensures SameUpToCase(s, t) <==> Lower(s) == Lower(t)
  {
    if Lower(s) == Lower(t) {
      assert |s| == |t|;
      forall i | 0 <= i < |s| ensures LowerChar(s[i]) == LowerChar(t[i]) {
        assert Lower(s)[i] == Lower(t)[i];
      }
    }
  }

  /** Upper-casing a string keeps it the same up to case. */
  lemma UpperSameUpToCase(s: string)
    ensures SameUpToCase(Upper(s), s)
  {
  }

  /** `s.startswith(prefix)` */
  predicate StartsWith(s: string, prefix: string) {
    |prefix| <= |s| && s[..|prefix|] == prefix
  }

  /** `s.endswith(suffix)` */
  predicate EndsWith(s: string, suffix: string) {
    |suffix| <= |s| && s[|s| - |suffix|..] == suffix
  }

  /** `part` occurs in `s` starting at index `i`. */
  ghost predicate OccursAt(s: string, part: string, i: int) {
    0 <= i && i + |part| <= |s| && s[i..i + |part|] == part
  }

  /** `part in s` */
  function Contains(s: string, part: string): (found: bool)
    ensures found <==> exists i :: OccursAt(s, part, i)
    decreases |s|
  {
    if |part| > |s| then false
    else if s[..|part|] == part then OccursAtZero(s, part); true
    else ContainsStep(s, part); Contains(s[1..], part)
  }

  lemma OccursAtZero(s: string, part: string)
    requires |part| <= |s| && s[..|part|] == part
    ensures OccursAt(s, part, 0)
  {
  }

  lemma ContainsStep(s: string, part: string)
    requires |part| <= |s| && s[..|part|] != part
    ensures (exists i :: OccursAt(s, part, i)) <==> (exists i :: OccursAt(s[1..], part, i))
  {
    if i :| OccursAt(s, part, i) {
      assert i != 0;
      assert s[1..][i - 1..i - 1 + |part|] == s[i..i + |part|];
      assert OccursAt(s[1..], part, i - 1);
    }
    if j :| OccursAt(s[1..], part, j) {
      assert s[j + 1..j + 1 + |part|] == s[1..][j..j + |part|];
      assert OccursAt(s, part, j + 1);
    }
  }

  /** `s.split(sep)` for a one-character separator: never an empty list. */
  function Split(s: string, sep: char): (lines: seq<string>)
    ensures |lines| >= 1
    ensures forall k :: 0 <= k < |lines| ==> sep !in lines[k]
    ensures |lines| == 1 <==> sep !in s
    ensures s != [] && s[0] != sep ==> lines[0] != [] && lines[0][0] == s[0]
    decreases |s|
  {
    if s == [] then [[]]
    else
      var rest := Split(s[1..], sep);
      assert sep in s <==> s[0] == sep || sep in s[1..] by {
        assert s == [s[0]] + s[1..];
      }
      if s[0] == sep then [[]] + rest
      else [[s[0]] + rest[0]] + rest[1..]
  }

  /** `sep.join(parts)` */
  function Join(sep: string, parts: seq<string>): (s: string)
    ensures parts != [] ==> StartsWith(s, parts[0])
    decreases |parts|
  {
    if parts == [] then []
    else if |parts| == 1 then parts[0]
    else parts[0] + sep + Join(sep, parts[1..])
  }

  /** A separator-free prefix glues onto the first piece of the split. */
  lemma {:induction false} SplitPrefix(a: string, t: string, sep: char)
    requires sep !in a
    ensures Split(a + t, sep) == [a + Split(t, sep)[0]] + Split(t, sep)[1..]
    decreases |a|
  {
    if a == [] {
      var lines := Split(t, sep);
      assert a + t == t;
      assert a + lines[0] == lines[0];
      assert [lines[0]] + lines[1..] == lines;
    } else {
      assert (a + t)[0] == a[0];
      assert (a + t)[1..] == a[1..] + t;
      SplitPrefix(a[1..], t, sep);
      assert [a[0]] + (a[1..] + Split(t, sep)[0]) == a + Split(t, sep)[0];
    }
  }

  /** Without a separator, the split is the string itself. */
  lemma SplitNoSeparator(s: string, sep: char)
    requires sep !in s
    ensures Split(s, sep) == [s]
  {
    assert s + [] == s;
    SplitPrefix(s, [], sep);
  }

  /** The first separator ends the first piece; the rest is split on its own. */
  lemma SplitAtSeparator(a: string, t: string, sep: char)
    requires sep !in a
    ensures Split(a + [sep] + t, sep) == [a] + Split(t, sep)
  {
    assert a + [sep] + t == a + ([sep] + t);
    assert ([sep] + t)[1..] == t;
    assert Split([sep] + t, sep) == [[]] + Split(t, sep);
    assert a + [] == a;
    SplitPrefix(a, [sep] + t, sep);
  }

  /** The piece after the first separator runs up to the next separator or the end. */
  lemma SecondPiece(first: string, second: string, rest: string, sep: char)
    requires sep !in first && sep !in second
    requires rest == [] || rest[0] == sep
    ensures |Split(first + [sep] + second + rest, sep)| > 1
    ensures Split(first + [sep] + second + rest, sep)[1] == second
  {
    var tail := Split(rest, sep);
    assert tail[0] == [] by {
      if rest != [] {
        assert rest == [sep] + rest[1..];
        SplitAtSeparator([], rest[1..], sep);
      }
    }
    assert first + [sep] + second + rest == first + [sep] + (second + rest);
    SplitAtSeparator(first, second + rest, sep);
    SplitPrefix(second, rest, sep);
    assert second + tail[0] == second;
  }

  /** Gluing a prefix onto the first piece glues it onto the front of the join. */
  lemma {:induction false} JoinGlue(x: string, parts: seq<string>, sep: char)
    requires |parts| >= 1
    ensures Join([sep], [x + parts[0]] + parts[1..]) == x + Join([sep], parts)
  {
    var glued := [x + parts[0]] + parts[1..];
    assert glued[1..] == parts[1..];
    if |parts| > 1 {
      var tail := Join([sep], parts[1..]);
      assert x + parts[0] + [sep] + tail == x + (parts[0] + [sep] + tail);
    }
  }

  /** Joining the pieces of a split with the separator gives back the string. */
  lemma {:induction false} JoinSplit(s: string, sep: char)
    ensures Join([sep], Split(s, sep)) == s
    decreases |s|
  {
    if s != [] {
      var rest := Split(s[1..], sep);
      JoinSplit(s[1..], sep);
      assert s == [s[0]] + s[1..];
      if s[0] == sep {
        var lines := [[]] + rest;
        assert Split(s, sep) == lines;
        assert lines[1..] == rest;
      } else {
        JoinGlue([s[0]], rest, sep);
      }
    }
  }

  /** Splitting a join of separator-free pieces gives back the pieces. */
  lemma {:induction false} SplitJoin(parts: seq<string>, sep: char)
    requires |parts| >= 1
    requires forall k :: 0 <= k < |parts| ==> sep !in parts[k]
    ensures Split(Join([sep], parts), sep) == parts
    decreases |parts|
  {
    if |parts| == 1 {
      SplitNoSeparator(parts[0], sep);
    } else {
      SplitJoin(parts[1..], sep);
      SplitAtSeparator(parts[0], Join([sep], parts[1..]), sep);
      assert [parts[0]] + parts[1..] == parts;
    }
  }

  /** `s[:n]` for a non-negative `n`. */
  function Take(s: string, n: nat): (r: string)
    ensures |r| == if |s| <= n then |s| else n
    ensures StartsWith(s, r)
  {
    if |s| <= n then s else s[..n]
  }
}
