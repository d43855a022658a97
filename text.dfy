/**
 * The few Python string operations the NIS check relies on, restricted to
 * ASCII: `str.strip()`, `str.lower()`, `str.split(c, 1)`, `str.split(None)`,
 * `sep.join(xs)` and the substring test `p in s`.
 */
module Text {
  import opened Wrappers

  // ---------------------------------------------------------------------------
  // Character classes
  // ---------------------------------------------------------------------------

  /** ASCII whitespace as `str.strip()`, `str.split(None)` and the regex
      class `\s` see it: space, tab, line feed, carriage return, vertical
      tab and form feed. */
  predicate IsSpace(ch: char) {
    ch == ' ' || ch == '\t' || ch == '\n' || ch == '\r' || ch == '\U{B}' || ch == '\U{C}'
  }

  predicate IsUpper(ch: char) {
    'A' <= ch <= 'Z'
  }

  /** No whitespace anywhere in `s`. */
  predicate NoSpace(s: string) {
    forall i :: 0 <= i < |s| ==> !IsSpace(s[i])
  }

  /** Only whitespace in `s`. */
  predicate AllSpace(s: string) {
    forall i :: 0 <= i < |s| ==> IsSpace(s[i])
  }

  /** Neither a leading nor a trailing whitespace character. */
  predicate IsStripped(s: string) {
    s == [] || (!IsSpace(s[0]) && !IsSpace(s[|s| - 1]))
  }

  predicate IsLowerCase(s: string) {
    forall i :: 0 <= i < |s| ==> !IsUpper(s[i])
  }

  /** The shape of every service name and source list in nsswitch data. */
  predicate IsNormal(s: string) {
    IsLowerCase(s) && IsStripped(s)
  }

  /** Every character of `t` occurs in `s`. */
  predicate CharsFrom(t: string, s: string) {
    forall ch :: ch in t ==> ch in s
  }

  /** `t` is non-empty, has no whitespace and uses only characters that occur
      in `s`; this is the shape of every `s.split(None)` token, not a claim
      that `t` is one of them. */
  predicate IsWordFrom(t: string, s: string) {
    t != [] && NoSpace(t) && CharsFrom(t, s)
  }

  // ---------------------------------------------------------------------------
  // str.strip()
  // ---------------------------------------------------------------------------

  /** `s.lstrip()`: `s` with its leading whitespace removed. */
  function TrimStart(s: string): (r: string)
    ensures r == [] || !IsSpace(r[0])
  {
    if s != [] && IsSpace(s[0]) then TrimStart(s[1..]) else s
  }

  /** What `TrimStart` removes is exactly a whitespace prefix. */
  lemma {:induction false} TrimStartSlice(s: string)
    ensures |TrimStart(s)| <= |s| && TrimStart(s) == s[|s| - |TrimStart(s)|..]
    ensures AllSpace(s[..|s| - |TrimStart(s)|])
  {
    if s != [] && IsSpace(s[0]) {
      TrimStartSlice(s[1..]);
      var r := TrimStart(s[1..]);
      assert s[..|s| - |r|] == [s[0]] + s[1..][..|s| - 1 - |r|];
    }
  }

  /** `s.rstrip()`: `s` with its trailing whitespace removed; a prefix of `s`. */
  function TrimEnd(s: string): (r: string)
    ensures |r| <= |s| && r == s[..|r|]
    ensures r == [] || !IsSpace(r[|r| - 1])
  {
    if s != [] && IsSpace(s[|s| - 1]) then TrimEnd(s[..|s| - 1]) else s
  }

  /** What `TrimEnd` removes is exactly a whitespace suffix. */
  lemma {:induction false} TrimEndSlice(s: string)
    ensures AllSpace(s[|TrimEnd(s)|..])
  {
    if s != [] && IsSpace(s[|s| - 1]) {
      TrimEndSlice(s[..|s| - 1]);
      var r := TrimEnd(s[..|s| - 1]);
      assert s[|r|..] == s[..|s| - 1][|r|..] + [s[|s| - 1]];
    }
  }

  /** `s.strip()`: neither leading nor trailing whitespace is left. */
  function Strip(s: string): (r: string)
    ensures IsStripped(r)
  {
    TrimEnd(TrimStart(s))
  }

  /** The stripped result is the part of `s` left once a whitespace-only
      prefix and a whitespace-only suffix are removed. */
  lemma StripSlice(s: string)
    ensures exists i :: 0 <= i <= |s| - |Strip(s)| && s[i..i + |Strip(s)|] == Strip(s)
                     && AllSpace(s[..i]) && AllSpace(s[i + |Strip(s)|..])
  {
    var t := TrimStart(s);
    var r := TrimEnd(t);
    TrimStartSlice(s);
    TrimEndSlice(t);
    var i := |s| - |t|;
    assert t == s[i..] && r == t[..|r|];
    assert s[i..][..|r|] == s[i..i + |r|];
    assert s[i + |r|..] == t[|r|..];
  }

  lemma StripChars(s: string)
    ensures CharsFrom(Strip(s), s)
  {
    StripSlice(s);
    var r := Strip(s);
    var i :| 0 <= i <= |s| - |r| && s[i..i + |r|] == r && AllSpace(s[..i]) && AllSpace(s[i + |r|..]);
    SliceChars(s, i, i + |r|);
  }

  lemma SliceChars(s: string, i: nat, j: nat)
    requires i <= j <= |s|
    ensures CharsFrom(s[i..j], s)
  {
    forall ch | ch in s[i..j] ensures ch in s {
      var k :| 0 <= k < j - i && s[i..j][k] == ch;
      assert s[i + k] == ch;
    }
  }

  /** Stripping a lower-case string leaves it lower case (it keeps a slice). */
  lemma StripKeepsLowerCase(s: string)
    requires IsLowerCase(s)
    ensures IsNormal(Strip(s))
  {
    var r := Strip(s);
    StripSlice(s);
    var i :| 0 <= i <= |s| - |r| && s[i..i + |r|] == r && AllSpace(s[..i]) && AllSpace(s[i + |r|..]);
    forall k | 0 <= k < |r| ensures !IsUpper(r[k]) {
      assert r[k] == s[i + k];
    }
  }

  /** An already stripped string is a fixed point of `Strip`. */
  lemma StripStripped(s: string)
    requires IsStripped(s)
    ensures Strip(s) == s
  {
  }

  // ---------------------------------------------------------------------------
  // str.lower()
  // ---------------------------------------------------------------------------

  function LowerChar(ch: char): char {
    if IsUpper(ch) then (ch as int + 32) as char else ch
  }

  /** `s.lower()` on ASCII: every upper-case letter mapped to its lower-case
      partner, all other characters kept, length unchanged. */
  function Lower(s: string): (r: string)
    ensures |r| == |s| && forall i :: 0 <= i < |s| ==> r[i] == LowerChar(s[i])
    ensures IsLowerCase(r)
  {
    if s == [] then [] else [LowerChar(s[0])] + Lower(s[1..])
  }

  // ---------------------------------------------------------------------------
  // str.split(c, 1)
  // ---------------------------------------------------------------------------

  /** Position of the first `c` in `s`, or `|s|` when there is none. */
  function IndexOf(s: string, c: char): (i: nat)
    ensures i <= |s| && c !in s[..i]
    ensures i < |s| ==> s[i] == c
  {
    IndexFrom(s, c, 0)
  }

  /** The first position at or after `k` holding `c`, or `|s|`. */
  function IndexFrom(s: string, c: char, k: nat): (i: nat)
    requires k <= |s|
    ensures k <= i <= |s| && c !in s[k..i]
    ensures i < |s| ==> s[i] == c
    decreases |s| - k
  {
    if k == |s| || s[k] == c then k
    else
      var i := IndexFrom(s, c, k + 1);
      assert s[k..i] == [s[k]] + s[k + 1..i];
      i
  }

  /** `s.split(c, 1)[0]`: the text before the first `c`, or all of `s`. */
  function Before(s: string, c: char): (r: string)
    ensures c !in r
    ensures |r| <= |s| && r == s[..|r|]
    ensures |r| == |s| || s[|r|] == c
  {
    s[..IndexOf(s, c)]
  }

  /** Without a `c`, nothing is cut. */
  lemma BeforeAbsent(s: string, c: char)
    requires c !in s
    ensures Before(s, c) == s
  {
  }

  /** `s.split(c, 1)` when `c in s`: the halves before and after the first `c`. */
  function SplitAtFirst(s: string, c: char): (r: Option<(string, string)>)
    ensures r.None? <==> c !in s
    ensures r.Some? ==> r.value.0 + [c] + r.value.1 == s && c !in r.value.0
  {
    var i := IndexOf(s, c);
    if i == |s| then
      assert s[..i] == s;
      None
    else
      assert s == s[..i] + [c] + s[i + 1..];
      Some((s[..i], s[i + 1..]))
  }

  /** `s.split(c)`: the fields between the occurrences of `c`. */
  function Fields(s: string, c: char): (r: seq<string>)
    ensures |r| >= 1
    ensures forall j :: 0 <= j < |r| ==> c !in r[j]
    decreases |s|
  {
    var parts := SplitAtFirst(s, c);
    if parts.None? then [s] else [parts.value.0] + Fields(parts.value.1, c)
  }

  /** The only fields of `Join([c], fs)` are `fs` themselves. */
  lemma {:induction false} FieldsOfJoin(fs: seq<string>, c: char)
    requires |fs| >= 1
    requires forall j :: 0 <= j < |fs| ==> c !in fs[j]
    ensures Fields(Join([c], fs), c) == fs
  {
    if |fs| == 1 {
      FieldsSingle(fs[0], c);
    } else {
      var rest := Join([c], fs[1..]);
      assert Join([c], fs) == fs[0] + [c] + rest;
      FieldsStep(fs[0], c, rest);
      FieldsOfJoin(fs[1..], c);
      assert fs == [fs[0]] + fs[1..];
    }
  }

  lemma FieldsSingle(a: string, c: char)
    requires c !in a
    ensures Fields(a, c) == [a]
  {
    assert SplitAtFirst(a, c).None?;
  }

  lemma FieldsStep(a: string, c: char, b: string)
    requires c !in a
    ensures Fields(a + [c] + b, c) == [a] + Fields(b, c)
  {
    SplitAtFirstAt(a, c, b);
  }

  /** The first `c` of `a + [c] + b` is the one after `a` when `a` has none. */
  lemma SplitAtFirstAt(a: string, c: char, b: string)
    requires c !in a
    ensures SplitAtFirst(a + [c] + b, c) == Some((a, b))
  {
    var s := a + [c] + b;
    IndexOfAfter(a, c, b);
    assert s[..|a|] == a && s[|a| + 1..] == b;
  }

  lemma IndexOfAfter(a: string, c: char, b: string)
    requires c !in a
    ensures IndexOf(a + [c] + b, c) == |a|
  {
    IndexFromAfter(a, c, b, 0);
  }

  lemma {:induction false} IndexFromAfter(a: string, c: char, b: string, k: nat)
    requires k <= |a| && c !in a[k..]
    ensures IndexFrom(a + [c] + b, c, k) == |a|
    decreases |a| - k
  {
    if k < |a| {
      assert a[k] in a[k..];
      assert a[k + 1..] == a[k..][1..];
      IndexFromAfter(a, c, b, k + 1);
    }
  }

  // ---------------------------------------------------------------------------
  // str.split(None)
  // ---------------------------------------------------------------------------

  /** Length of the run of non-whitespace characters that starts `s`. */
  function WordEnd(s: string): (n: nat)
    ensures n <= |s| && NoSpace(s[..n])
    ensures n == |s| || IsSpace(s[n])
  {
    WordEndFrom(s, 0)
  }

  /** The end of the run of non-whitespace characters that starts at `k`. */
  function WordEndFrom(s: string, k: nat): (n: nat)
    requires k <= |s|
    ensures k <= n <= |s| && NoSpace(s[k..n])
    ensures n == |s| || IsSpace(s[n])
    decreases |s| - k
  {
    if k == |s| || IsSpace(s[k]) then k
    else
      var n := WordEndFrom(s, k + 1);
      assert s[k..n] == [s[k]] + s[k + 1..n];
      n
  }

  /** `s.split(None)`: the maximal runs of non-whitespace characters of `s`,
      in order; every one is non-empty, has no whitespace and is made of
      characters of `s`. */
  function Tokens(s: string): (r: seq<string>)
    ensures forall j :: 0 <= j < |r| ==> IsWordFrom(r[j], s)
    decreases |s|
  {
    if s == [] then []
    else if IsSpace(s[0]) then
      var r := Tokens(s[1..]);
      assert forall ch :: ch in s[1..] ==> ch in s;
      r
    else
      var n := WordEnd(s);
      var r := [s[..n]] + Tokens(s[n..]);
      assert forall ch :: ch in s[..n] ==> ch in s;
      assert forall ch :: ch in s[n..] ==> ch in s;
      r
  }

  /** The token set `set(s.split(None))`. */
  function TokenSet(s: string): (r: set<string>)
    ensures forall t :: t in r ==> t != [] && NoSpace(t)
  {
    set t | t in Tokens(s)
  }

  lemma TokenSetOf(s: string, ws: seq<string>)
    requires Tokens(s) == ws
    ensures TokenSet(s) == set t | t in ws
  {
  }

  lemma SetOfTwo(a: string, b: string)
    ensures (set t | t in [a, b]) == {a, b}
  {
  }

  lemma SetOfThree(a: string, b: string, c: string)
    ensures (set t | t in [a, b, c]) == {a, b, c}
  {
  }

  /** A word followed by nothing or by whitespace is read as one whole token. */
  lemma TokensOfWord(w: string, rest: string)
    requires w != [] && NoSpace(w)
    requires rest == [] || IsSpace(rest[0])
    ensures Tokens(w + rest) == [w] + Tokens(rest)
  {
    WordEndOfWord(w, rest);
    assert (w + rest)[..|w|] == w;
    assert (w + rest)[|w|..] == rest;
  }

  lemma WordEndOfWord(w: string, rest: string)
    requires NoSpace(w)
    requires rest == [] || IsSpace(rest[0])
    ensures WordEnd(w + rest) == |w|
  {
    WordEndFromOfWord(w, rest, 0);
  }

  lemma {:induction false} WordEndFromOfWord(w: string, rest: string, k: nat)
    requires k <= |w| && NoSpace(w)
    requires rest == [] || IsSpace(rest[0])
    ensures WordEndFrom(w + rest, k) == |w|
    decreases |w| - k
  {
    if k < |w| {
      assert (w + rest)[k] == w[k];
      WordEndFromOfWord(w, rest, k + 1);
    } else if rest != [] {
      assert (w + rest)[k] == rest[0];
    }
  }

  /** Round trip: splitting words joined by single spaces gives the words back. */
  lemma TokensOfJoin(ws: seq<string>)
    requires forall j :: 0 <= j < |ws| ==> ws[j] != [] && NoSpace(ws[j])
    ensures Tokens(Join(" ", ws)) == ws
  {
    assert Join(" ", ws) + [] == Join(" ", ws);
    TokensOfJoinThen(ws, []);
  }

  /** Trailing whitespace, such as the newline `readlines` keeps, adds no token. */
  lemma {:induction false} TokensOfJoinThen(ws: seq<string>, tail: string)
    requires forall j :: 0 <= j < |ws| ==> ws[j] != [] && NoSpace(ws[j])
    requires AllSpace(tail)
    ensures Tokens(Join(" ", ws) + tail) == ws
  {
    if ws == [] {
      assert Join(" ", ws) + tail == tail;
      TokensOfSpace(tail);
    } else if |ws| == 1 {
      TokensOfWord(ws[0], tail);
      TokensOfSpace(tail);
    } else {
      var rest := Join(" ", ws[1..]);
      assert Join(" ", ws) + tail == ws[0] + (" " + (rest + tail));
      TokensOfWord(ws[0], " " + (rest + tail));
      assert (" " + (rest + tail))[1..] == rest + tail;
      TokensOfJoinThen(ws[1..], tail);
      assert ws == [ws[0]] + ws[1..];
    }
  }

  /** Whitespace alone has no tokens. */
  lemma {:induction false} TokensOfSpace(s: string)
    requires AllSpace(s)
    ensures Tokens(s) == []
  {
    if s != [] {
      TokensOfSpace(s[1..]);
    }
  }

  // ---------------------------------------------------------------------------
  // sep.join(xs)
  // ---------------------------------------------------------------------------

  /** `sep.join(xs)`: the strings of `xs` with `sep` between neighbours; the
      result begins with the first string. */
  function Join(sep: string, xs: seq<string>): (r: string)
    ensures xs != [] ==> StartsWith(r, xs[0])
    decreases |xs|
  {
    if xs == [] then []
    else if |xs| == 1 then xs[0]
    else xs[0] + sep + Join(sep, xs[1..])
  }

  /** Joining two non-empty lists puts one separator between their joins. */
  lemma {:induction false} JoinAppend(sep: string, xs: seq<string>, ys: seq<string>)
    requires xs != [] && ys != []
    ensures Join(sep, xs + ys) == Join(sep, xs) + sep + Join(sep, ys)
  {
    if |xs| == 1 {
      assert (xs + ys)[1..] == ys;
    } else {
      assert (xs + ys)[1..] == xs[1..] + ys;
      JoinAppend(sep, xs[1..], ys);
    }
  }

  /** Every joined item occurs in the joined text. */
  lemma {:induction false} JoinContainsEach(sep: string, xs: seq<string>, k: nat)
    requires k < |xs|
    ensures Contains(Join(sep, xs), xs[k])
  {
    if |xs| == 1 {
      ContainsInfix([], xs[0], []);
      assert [] + xs[0] + [] == xs[0];
    } else if k == 0 {
      ContainsInfix([], xs[0], sep + Join(sep, xs[1..]));
      assert [] + xs[0] + (sep + Join(sep, xs[1..])) == Join(sep, xs);
    } else {
      JoinContainsEach(sep, xs[1..], k - 1);
      ContainsSuffix(xs[0] + sep, Join(sep, xs[1..]), xs[k]);
    }
  }

  // ---------------------------------------------------------------------------
  // The substring test `p in s`
  // ---------------------------------------------------------------------------

  predicate StartsWith(s: string, p: string) {
    |p| <= |s| && s[..|p|] == p
  }

  /** `p` occurs in `s` starting at position `i`. */
  predicate OccursAt(s: string, p: string, i: int) {
    0 <= i <= |s| - |p| && s[i..i + |p|] == p
  }

  /** Python's `p in s` for strings: `p` occurs in `s` at some position. */
  predicate Contains(s: string, p: string)
    ensures Contains(s, p) ==> |p| <= |s|
    decreases |s|
  {
    StartsWith(s, p) || (s != [] && Contains(s[1..], p))
  }

  /** `Contains` holds exactly when `p` occurs in `s` at some position. */
  lemma {:induction false} ContainsIff(s: string, p: string)
    ensures Contains(s, p) <==> exists i :: OccursAt(s, p, i)
  {
    if Contains(s, p) {
      if StartsWith(s, p) {
        assert OccursAt(s, p, 0);
      } else {
        ContainsIff(s[1..], p);
        var i :| OccursAt(s[1..], p, i);
        assert s[1..][i..i + |p|] == s[i + 1..i + 1 + |p|];
        assert OccursAt(s, p, i + 1);
      }
    }
    if exists i :: OccursAt(s, p, i) {
      var i :| OccursAt(s, p, i);
      if i == 0 {
        assert StartsWith(s, p);
      } else {
        assert s[1..][i - 1..i - 1 + |p|] == s[i..i + |p|];
        assert OccursAt(s[1..], p, i - 1);
        ContainsIff(s[1..], p);
      }
    }
  }

  lemma ContainsInfix(a: string, p: string, b: string)
    ensures Contains(a + p + b, p)
  {
    var s := a + p + b;
    assert s[|a|..|a| + |p|] == p;
    assert OccursAt(s, p, |a|);
    ContainsIff(s, p);
  }

  lemma ContainsSuffix(a: string, s: string, p: string)
    requires Contains(s, p)
    ensures Contains(a + s, p)
  {
    ContainsIff(s, p);
    var i :| OccursAt(s, p, i);
    assert (a + s)[|a| + i..|a| + i + |p|] == s[i..i + |p|];
    assert OccursAt(a + s, p, |a| + i);
    ContainsIff(a + s, p);
  }
}
