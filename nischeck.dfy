/**
 * The NIS configuration check of the el7toel8 upgrade path
 * (actors/nischeck/libraries/nischeck.py).
 *
 * A NIS server named by host name in /etc/yp.conf cannot be reached while
 * host names are themselves resolved through NIS (the "hosts" entry of
 * /etc/nsswitch.conf). The check reads both files as lists of lines, parses
 * them, and reports the configuration when both conditions hold.
 *
 * The file contents arrive as parameters (`None` when the file could not be
 * read), and the IP-literal test of `ipaddress.ip_address` as the parameter
 * `isIp`.
 */
module NisCheck {
  import opened Wrappers
  import opened Text
  import Ipv4

  /** The comment marker of both configuration files. */
  const CommentChar: char := '#'

  // ===========================================================================
  // get_active_lines
  // ===========================================================================

  /** What remains of one raw line: the text before the first comment marker, stripped. */
  function CleanLine(line: string, commentChar: char): (r: string)
    ensures commentChar !in r && IsStripped(r)
  {
    var before := Before(line, commentChar);
    StripChars(before);
    Strip(before)
  }

  /** The shape of every line `ActiveLines` returns. */
  predicate IsActive(line: string, commentChar: char) {
    line != [] && commentChar !in line && IsStripped(line)
  }

  /** `filter(None, xs)` on strings: the non-empty ones, in order. */
  function DropEmpty(xs: seq<string>): (r: seq<string>)
    ensures |r| <= |xs|
  {
    if xs == [] then []
    else (if xs[0] == [] then [] else [xs[0]]) + DropEmpty(xs[1..])
  }

  /** The generator `(line.split(comment_char, 1)[0].strip() for line in lines)`. */
  function CleanLines(lines: seq<string>, commentChar: char): (r: seq<string>)
    ensures |r| == |lines|
    ensures forall i :: 0 <= i < |r| ==> commentChar !in r[i] && IsStripped(r[i])
  {
    seq(|lines|, i requires 0 <= i < |lines| => CleanLine(lines[i], commentChar))
  }

  /** `get_active_lines(lines, comment_char)`: every line cut at its first
      comment marker and stripped, the empty results dropped, order kept;
      no line returned is empty, holds the marker or has outer whitespace. */
  function ActiveLines(lines: seq<string>, commentChar: char): (r: seq<string>)
    ensures |r| <= |lines|
    ensures forall j :: 0 <= j < |r| ==> IsActive(r[j], commentChar)
  {
    var cleaned := CleanLines(lines, commentChar);
    DropEmptyFrom(cleaned);
    DropEmpty(cleaned)
  }

  lemma {:induction false} DropEmptyAppend(a: seq<string>, b: seq<string>)
    ensures DropEmpty(a + b) == DropEmpty(a) + DropEmpty(b)
  {
    if a != [] {
      assert (a + b)[1..] == a[1..] + b;
      DropEmptyAppend(a[1..], b);
    } else {
      assert a + b == b;
    }
  }

  lemma {:induction false} DropEmptyMember(xs: seq<string>, x: string)
    ensures x in DropEmpty(xs) <==> x in xs && x != []
  {
    if xs != [] {
      DropEmptyMember(xs[1..], x);
      assert xs == [xs[0]] + xs[1..];
    }
  }

  lemma DropEmptyFrom(xs: seq<string>)
    ensures forall j :: 0 <= j < |DropEmpty(xs)| ==> DropEmpty(xs)[j] in xs && DropEmpty(xs)[j] != []
  {
    forall j | 0 <= j < |DropEmpty(xs)| ensures DropEmpty(xs)[j] in xs && DropEmpty(xs)[j] != [] {
      DropEmptyMember(xs, DropEmpty(xs)[j]);
    }
  }

  lemma {:induction false} DropEmptyNonEmpty(xs: seq<string>)
    requires forall j :: 0 <= j < |xs| ==> xs[j] != []
    ensures DropEmpty(xs) == xs
  {
    if xs != [] {
      DropEmptyNonEmpty(xs[1..]);
      assert xs == [xs[0]] + xs[1..];
    }
  }

  /** The filter works line by line: it distributes over concatenation, so
      the output keeps the relative order of the lines it keeps. */
  lemma ActiveLinesAppend(a: seq<string>, b: seq<string>, commentChar: char)
    ensures ActiveLines(a + b, commentChar) == ActiveLines(a, commentChar) + ActiveLines(b, commentChar)
  {
    assert CleanLines(a + b, commentChar) == CleanLines(a, commentChar) + CleanLines(b, commentChar);
    DropEmptyAppend(CleanLines(a, commentChar), CleanLines(b, commentChar));
  }

  /** One line on its own is kept, cleaned, exactly when its cleaned form is not empty. */
  lemma ActiveLinesSingle(line: string, commentChar: char)
    ensures ActiveLines([line], commentChar)
         == if CleanLine(line, commentChar) == [] then [] else [CleanLine(line, commentChar)]
  {
    assert CleanLines([line], commentChar) == [CleanLine(line, commentChar)];
    assert CleanLines([line], commentChar)[1..] == [];
  }

  /** A line is returned exactly when it is the non-empty cleaned form of some input line. */
  lemma ActiveLinesMember(lines: seq<string>, commentChar: char, x: string)
    ensures x in ActiveLines(lines, commentChar) <==>
            x != [] && exists i :: 0 <= i < |lines| && CleanLine(lines[i], commentChar) == x
  {
    var cleaned := CleanLines(lines, commentChar);
    DropEmptyMember(cleaned, x);
    if x in cleaned {
      var i :| 0 <= i < |cleaned| && cleaned[i] == x;
      assert CleanLine(lines[i], commentChar) == x;
    }
    if exists i :: 0 <= i < |lines| && CleanLine(lines[i], commentChar) == x {
      var i :| 0 <= i < |lines| && CleanLine(lines[i], commentChar) == x;
      assert cleaned[i] == x;
    }
  }

  /** Active lines are already clean: filtering them again changes nothing. */
  lemma ActiveLinesIdempotent(lines: seq<string>, commentChar: char)
    ensures ActiveLines(ActiveLines(lines, commentChar), commentChar) == ActiveLines(lines, commentChar)
  {
    var r := ActiveLines(lines, commentChar);
    forall j | 0 <= j < |r| ensures CleanLine(r[j], commentChar) == r[j] {
      assert IsActive(r[j], commentChar);
      assert Before(r[j], commentChar) == r[j];
      StripStripped(r[j]);
    }
    assert CleanLines(r, commentChar) == r;
    DropEmptyNonEmpty(r);
  }

  /** Filtering is determined by the cleaned form of each line. */
  lemma ActiveLinesOfCleaned(lines: seq<string>, commentChar: char, cleaned: seq<string>)
    requires |cleaned| == |lines|
    requires forall i :: 0 <= i < |lines| ==> CleanLine(lines[i], commentChar) == cleaned[i]
    ensures ActiveLines(lines, commentChar) == DropEmpty(cleaned)
  {
    assert CleanLines(lines, commentChar) == cleaned;
  }

  /** The input of the `get_active_lines` docstring example, each line
      cleaned, and what the filter yields. */
  const DocstringLines: seq<string> :=
    ["First line", "   ", "# Comment line", "Inline comment # comment",
     "          Whitespace          ", "Last line"]
  const DocstringCleaned: seq<string> := ["First line", "", "", "Inline comment", "Whitespace", "Last line"]
  const DocstringActive: seq<string> := ["First line", "Inline comment", "Whitespace", "Last line"]

  lemma ActiveLinesDocstringExample()
    ensures ActiveLines(DocstringLines, '#') == DocstringActive
  {
    forall i | 0 <= i < |DocstringLines| ensures CleanLine(DocstringLines[i], '#') == DocstringCleaned[i] {
      if i == 0 { DocstringLine0(); }
      else if i == 1 { DocstringLine1(); }
      else if i == 2 { DocstringLine2(); }
      else if i == 3 { DocstringLine3(); }
      else if i == 4 { DocstringLine4(); }
      else { DocstringLine5(); }
    }
    DocstringDropEmpty();
    ActiveLinesOfCleaned(DocstringLines, '#', DocstringCleaned);
  }

  lemma DocstringDropEmpty()
    ensures DropEmpty(DocstringCleaned) == DocstringActive
  {
  }

  lemma DocstringLine0() ensures CleanLine(DocstringLines[0], '#') == DocstringCleaned[0] {
    CleanLineIs(DocstringLines[0], "", "First line", "", "");
  }

  lemma DocstringLine1() ensures CleanLine(DocstringLines[1], '#') == DocstringCleaned[1] {
    CleanLineIs(DocstringLines[1], "   ", "", "", "");
  }

  lemma DocstringLine2() ensures CleanLine(DocstringLines[2], '#') == DocstringCleaned[2] {
    CleanLineIs(DocstringLines[2], "", "", "", "# Comment line");
  }

  lemma DocstringLine3() ensures CleanLine(DocstringLines[3], '#') == DocstringCleaned[3] {
    CleanLineIs(DocstringLines[3], "", "Inline comment", " ", "# comment");
  }

  lemma DocstringLine4() ensures CleanLine(DocstringLines[4], '#') == DocstringCleaned[4] {
    CleanLineIs(DocstringLines[4], "          ", "Whitespace", "          ", "");
  }

  lemma DocstringLine5() ensures CleanLine(DocstringLines[5], '#') == DocstringCleaned[5] {
    CleanLineIs(DocstringLines[5], "", "Last line", "", "");
  }

  /** A line made of blank padding, a stripped core, more blank padding
      and an optional comment cleans to that core. */
  lemma CleanLineIs(line: string, pad: string, core: string, gap: string, comment: string)
    requires line == pad + core + gap + comment
    requires AllSpace(pad) && IsStripped(core) && AllSpace(gap) && '#' !in pad + core + gap
    requires comment == [] || comment[0] == '#'
    ensures CleanLine(line, '#') == core
  {
    var text := pad + core + gap;
    if comment != [] {
      IndexOfAfter(text, '#', comment[1..]);
      assert line == text + ['#'] + comment[1..];
    } else {
      assert line == text;
    }
    assert Before(line, '#') == text;
    if core == [] {
      assert text == (pad + gap) + [];
      TrimStartPadded(pad + gap, []);
    } else {
      assert text == pad + (core + gap);
      TrimStartPadded(pad, core + gap);
      TrimEndPadded(core, gap);
    }
  }

  lemma {:induction false} TrimStartPadded(pad: string, s: string)
    requires AllSpace(pad) && (s == [] || !IsSpace(s[0]))
    ensures TrimStart(pad + s) == s
  {
    if pad != [] {
      assert (pad + s)[1..] == pad[1..] + s;
      TrimStartPadded(pad[1..], s);
    }
  }

  lemma {:induction false} TrimEndPadded(s: string, tail: string)
    requires AllSpace(tail) && (s == [] || !IsSpace(s[|s| - 1]))
    requires s != [] || tail == []
    ensures TrimEnd(s + tail) == s
  {
    if tail != [] {
      assert (s + tail)[..|s + tail| - 1] == s + tail[..|tail| - 1];
      TrimEndPadded(s, tail[..|tail| - 1]);
    } else {
      assert s + tail == s;
    }
  }

  // ===========================================================================
  // parse_content
  // ===========================================================================

  /** `s.lower().strip()`. */
  function Normalize(s: string): (r: string)
    ensures IsNormal(r)
  {
    StripKeepsLowerCase(Lower(s));
    Strip(Lower(s))
  }

  /** The (service, sources) pair an nsswitch line contributes: present
      exactly when the line contains `:`, both halves of the split at the
      first `:` lower-cased and stripped. */
  function Entry(line: string): (r: Option<(string, string)>)
    ensures r.None? <==> ':' !in line
    ensures r.Some? ==> IsNormal(r.value.0) && IsNormal(r.value.1)
  {
    var parts := SplitAtFirst(line, ':');
    if parts.None? then None else Some((Normalize(parts.value.0), Normalize(parts.value.1)))
  }

  /** The entries of a list of lines, one per line. */
  function Entries(lines: seq<string>): seq<Option<(string, string)>> {
    seq(|lines|, i requires 0 <= i < |lines| => Entry(lines[i]))
  }

  lemma EntriesAppend(a: seq<string>, b: seq<string>)
    ensures Entries(a + b) == Entries(a) + Entries(b)
  {
  }

  /** Entry `e` stores a value for service `k`. */
  predicate Keyed(e: Option<(string, string)>, k: string) {
    e.Some? && e.value.0 == k
  }

  /** Entry `e` lists source token `t`. */
  predicate Lists(e: Option<(string, string)>, t: string) {
    e.Some? && t in Tokens(e.value.1)
  }

  /** The dictionary built by storing the entries one after the other. */
  function MapOf(es: seq<Option<(string, string)>>): (r: map<string, string>)
    ensures forall k :: k in r ==> Some((k, r[k])) in es
  {
    if es == [] then map[]
    else
      var m := MapOf(es[..|es| - 1]);
      var e := es[|es| - 1];
      if e.None? then m else m[e.value.0 := e.value.1]
  }

  /** The set built by adding the source tokens of the entries one after the other. */
  function SourcesOf(es: seq<Option<(string, string)>>): (r: set<string>)
    ensures forall t :: t in r ==> t != [] && NoSpace(t)
  {
    if es == [] then {}
    else
      var s := SourcesOf(es[..|es| - 1]);
      var e := es[|es| - 1];
      if e.None? then s else s + TokenSet(e.value.1)
  }

  /** The dictionary `parse_content` builds from its active lines; every
      key and every value is lower case and stripped. */
  function ServiceMap(lines: seq<string>): (m: map<string, string>)
    ensures forall k :: k in m ==> IsNormal(k) && IsNormal(m[k])
  {
    var es := Entries(lines);
    MapOfNormal(es);
    MapOf(es)
  }

  /** The set of source tokens `parse_content` collects from its active lines. */
  function SourceSet(lines: seq<string>): (r: set<string>)
    ensures forall t :: t in r ==> t != [] && NoSpace(t)
  {
    SourcesOf(Entries(lines))
  }

  /** `parse_content(content)`: the active lines of the file, comments
      marked by `#`, folded into the service dictionary and the source set. */
  method ParseContent(content: seq<string>) returns (data: map<string, string>, sources: set<string>)
    ensures data == ServiceMap(ActiveLines(content, CommentChar))
    ensures sources == SourceSet(ActiveLines(content, CommentChar))
    ensures forall k :: k in data ==> IsNormal(k) && IsNormal(data[k])
    ensures forall k :: k in data ==> TokenSet(data[k]) <= sources
  {
    var lines := ActiveLines(content, CommentChar);
    data, sources := ParseLines(lines);
    SourcesCoverServiceMap(lines);
  }

  /** The loop of `parse_content`: each line holding `:` is split at its
      first `:`; the lower-cased, stripped halves give a dictionary entry
      (a later line overwrites an earlier one) and the tokens of the
      second half join the source set. */
  method ParseLines(lines: seq<string>) returns (data: map<string, string>, sources: set<string>)
    ensures data == ServiceMap(lines)
    ensures sources == SourceSet(lines)
  {
    data, sources := map[], {};
    var i := 0;
    while i < |lines|
      invariant 0 <= i <= |lines|
      invariant data == MapOf(Entries(lines)[..i])
      invariant sources == SourcesOf(Entries(lines)[..i])
    {
      var line := lines[i];
      ParseStep(lines, i);
      if ':' in line {
        var parts := SplitAtFirst(line, ':').value;
        var service, srcs := Normalize(parts.0), Normalize(parts.1);
        data := data[service := srcs];
        sources := sources + TokenSet(srcs);
      }
      i := i + 1;
    }
    assert Entries(lines)[..i] == Entries(lines);
  }

  /** One pass of the loop body of `parse_content` on line `i`. */
  lemma ParseStep(lines: seq<string>, i: nat)
    requires i < |lines|
    ensures ':' !in lines[i] ==> MapOf(Entries(lines)[..i + 1]) == MapOf(Entries(lines)[..i])
    ensures ':' !in lines[i] ==> SourcesOf(Entries(lines)[..i + 1]) == SourcesOf(Entries(lines)[..i])
    ensures ':' in lines[i] ==>
              var parts := SplitAtFirst(lines[i], ':').value;
              MapOf(Entries(lines)[..i + 1])
                == MapOf(Entries(lines)[..i])[Normalize(parts.0) := Normalize(parts.1)]
    ensures ':' in lines[i] ==>
              var parts := SplitAtFirst(lines[i], ':').value;
              SourcesOf(Entries(lines)[..i + 1]) == SourcesOf(Entries(lines)[..i]) + TokenSet(Normalize(parts.1))
  {
    EntriesStep(Entries(lines), i);
  }

  /** One more entry updates the dictionary and the set as the loop body does. */
  lemma EntriesStep(es: seq<Option<(string, string)>>, i: nat)
    requires i < |es|
    ensures es[i].None? ==> MapOf(es[..i + 1]) == MapOf(es[..i]) && SourcesOf(es[..i + 1]) == SourcesOf(es[..i])
    ensures es[i].Some? ==> MapOf(es[..i + 1]) == MapOf(es[..i])[es[i].value.0 := es[i].value.1]
    ensures es[i].Some? ==> SourcesOf(es[..i + 1]) == SourcesOf(es[..i]) + TokenSet(es[i].value.1)
  {
    assert es[..i + 1][..i] == es[..i];
  }

  // ---------------------------------------------------------------------------
  // Properties of the dictionary and the source set over entries
  // ---------------------------------------------------------------------------

  lemma {:induction false} MapOfNormal(es: seq<Option<(string, string)>>)
    requires forall i :: 0 <= i < |es| && es[i].Some? ==> IsNormal(es[i].value.0) && IsNormal(es[i].value.1)
    ensures forall k :: k in MapOf(es) ==> IsNormal(k) && IsNormal(MapOf(es)[k])
  {
    if es != [] {
      MapOfNormal(es[..|es| - 1]);
    }
  }

  lemma {:induction false} MapOfHasKey(es: seq<Option<(string, string)>>, k: string)
    ensures k in MapOf(es) <==> exists i :: 0 <= i < |es| && Keyed(es[i], k)
  {
    if es != [] {
      var front := es[..|es| - 1];
      MapOfHasKey(front, k);
      if exists i :: 0 <= i < |es| && Keyed(es[i], k) {
        var i :| 0 <= i < |es| && Keyed(es[i], k);
        if i < |es| - 1 {
          assert Keyed(front[i], k);
        }
      }
      if exists i :: 0 <= i < |front| && Keyed(front[i], k) {
        var i :| 0 <= i < |front| && Keyed(front[i], k);
        assert Keyed(es[i], k);
      }
    }
  }

  lemma {:induction false} MapOfLastWins(es: seq<Option<(string, string)>>, i: nat)
    requires i < |es| && es[i].Some?
    requires forall j :: i < j < |es| ==> !Keyed(es[j], es[i].value.0)
    ensures es[i].value.0 in MapOf(es) && MapOf(es)[es[i].value.0] == es[i].value.1
  {
    if i < |es| - 1 {
      var front := es[..|es| - 1];
      assert front[i] == es[i];
      forall j | i < j < |front| ensures !Keyed(front[j], front[i].value.0) {
        assert front[j] == es[j];
      }
      MapOfLastWins(front, i);
      assert !Keyed(es[|es| - 1], es[i].value.0);
    }
  }

  lemma {:induction false} MapOfSkipsNone(a: seq<Option<(string, string)>>, b: seq<Option<(string, string)>>)
    ensures MapOf(a + [None] + b) == MapOf(a + b)
    ensures SourcesOf(a + [None] + b) == SourcesOf(a + b)
  {
    if b == [] {
      assert (a + [None] + b)[..|a|] == a;
      assert a + b == a;
    } else {
      var b' := b[..|b| - 1];
      MapOfSkipsNone(a, b');
      assert (a + [None] + b)[..|a + [None] + b| - 1] == a + [None] + b';
      assert (a + [None] + b)[|a + [None] + b| - 1] == b[|b| - 1];
      assert (a + b)[..|a + b| - 1] == a + b';
      assert (a + b)[|a + b| - 1] == b[|b| - 1];
    }
  }

  lemma {:induction false} SourcesOfMember(es: seq<Option<(string, string)>>, t: string)
    ensures t in SourcesOf(es) <==> exists i :: 0 <= i < |es| && Lists(es[i], t)
  {
    if es != [] {
      var front := es[..|es| - 1];
      SourcesOfMember(front, t);
      if exists i :: 0 <= i < |es| && Lists(es[i], t) {
        var i :| 0 <= i < |es| && Lists(es[i], t);
        if i < |es| - 1 {
          assert Lists(front[i], t);
        }
      }
      if exists i :: 0 <= i < |front| && Lists(front[i], t) {
        var i :| 0 <= i < |front| && Lists(front[i], t);
        assert Lists(es[i], t);
      }
    }
  }

  lemma {:induction false} SourcesCoverMapOf(es: seq<Option<(string, string)>>)
    ensures forall k :: k in MapOf(es) ==> TokenSet(MapOf(es)[k]) <= SourcesOf(es)
  {
    if es != [] {
      SourcesCoverMapOf(es[..|es| - 1]);
    }
  }

  // ---------------------------------------------------------------------------
  // The same properties stated over nsswitch lines
  // ---------------------------------------------------------------------------

  /** `line` is a `:` line for service `k`. */
  predicate Declares(line: string, k: string) {
    Keyed(Entry(line), k)
  }

  /** `line` is a `:` line whose source list has the token `t`. */
  predicate Mentions(line: string, t: string) {
    Lists(Entry(line), t)
  }

  /** A service is a key of the dictionary exactly when some `:` line declares it. */
  lemma ServiceMapHasKey(lines: seq<string>, k: string)
    ensures k in ServiceMap(lines) <==> exists i :: 0 <= i < |lines| && Declares(lines[i], k)
  {
    var es := Entries(lines);
    MapOfHasKey(es, k);
    if exists i :: 0 <= i < |es| && Keyed(es[i], k) {
      var i :| 0 <= i < |es| && Keyed(es[i], k);
      assert Declares(lines[i], k);
    }
    if exists i :: 0 <= i < |lines| && Declares(lines[i], k) {
      var i :| 0 <= i < |lines| && Declares(lines[i], k);
      assert Keyed(es[i], k);
    }
  }

  /** Last write wins: the value stored for a service comes from the last line declaring it. */
  lemma ServiceMapLastWins(lines: seq<string>, i: nat)
    requires i < |lines| && ':' in lines[i]
    requires forall j :: i < j < |lines| ==> !Declares(lines[j], Entry(lines[i]).value.0)
    ensures Entry(lines[i]).value.0 in ServiceMap(lines)
    ensures ServiceMap(lines)[Entry(lines[i]).value.0] == Entry(lines[i]).value.1
  {
    var es := Entries(lines);
    forall j | i < j < |es| ensures !Keyed(es[j], es[i].value.0) {
      assert !Declares(lines[j], Entry(lines[i]).value.0);
    }
    MapOfLastWins(es, i);
  }

  /** Lines without `:` change neither the dictionary nor the source set, wherever they stand. */
  lemma NoColonLineIgnored(a: seq<string>, line: string, b: seq<string>)
    requires ':' !in line
    ensures ServiceMap(a + [line] + b) == ServiceMap(a + b)
    ensures SourceSet(a + [line] + b) == SourceSet(a + b)
  {
    EntriesAppend(a + [line], b);
    EntriesAppend(a, [line]);
    EntriesAppend(a, b);
    assert Entries([line]) == [None];
    MapOfSkipsNone(Entries(a), Entries(b));
  }

  /** A token is in the source set exactly when some `:` line lists it,
      including lines whose value a later line overwrote. */
  lemma SourceSetMember(lines: seq<string>, t: string)
    ensures t in SourceSet(lines) <==> exists i :: 0 <= i < |lines| && Mentions(lines[i], t)
  {
    var es := Entries(lines);
    SourcesOfMember(es, t);
    if exists i :: 0 <= i < |es| && Lists(es[i], t) {
      var i :| 0 <= i < |es| && Lists(es[i], t);
      assert Mentions(lines[i], t);
    }
    if exists i :: 0 <= i < |lines| && Mentions(lines[i], t) {
      var i :| 0 <= i < |lines| && Mentions(lines[i], t);
      assert Lists(es[i], t);
    }
  }

  /** Every token of every value left in the dictionary is in the source set. */
  lemma SourcesCoverServiceMap(lines: seq<string>)
    ensures forall k :: k in ServiceMap(lines) ==> TokenSet(ServiceMap(lines)[k]) <= SourceSet(lines)
  {
    SourcesCoverMapOf(Entries(lines));
  }

  /** An nsswitch.conf sample as `readlines` returns it: two service lines
      around a comment line, each ending in a newline. */
  const NsswitchSample: seq<string> := ["hosts: files dns nis\n", "# comment\n", "passwd: files sss\n"]
  const NsswitchCleaned: seq<string> := ["hosts: files dns nis", "", "passwd: files sss"]
  const NsswitchActive: seq<string> := ["hosts: files dns nis", "passwd: files sss"]

  const NsswitchEntries: seq<Option<(string, string)>> :=
    [Some(("hosts", "files dns nis")), Some(("passwd", "files sss"))]

  /** `parse_content` on the sample: both services with their sources, the
      comment line ignored, and the sources collected as single words. */
  lemma ParseExample()
    ensures ServiceMap(ActiveLines(NsswitchSample, '#')) == map["hosts" := "files dns nis", "passwd" := "files sss"]
    ensures SourceSet(ActiveLines(NsswitchSample, '#')) == {"files", "dns", "nis", "sss"}
  {
    NsswitchActiveLines();
    NsswitchEntryList();
    NsswitchMap();
    NsswitchSources();
  }

  lemma NsswitchEntryList()
    ensures Entries(NsswitchActive) == NsswitchEntries
  {
    forall i | 0 <= i < |NsswitchActive| ensures Entry(NsswitchActive[i]) == NsswitchEntries[i] {
      if i == 0 { NsswitchEntry0(); } else { NsswitchEntry1(); }
    }
    EntriesOf(NsswitchActive, NsswitchEntries);
  }

  lemma NsswitchMap()
    ensures MapOf(NsswitchEntries) == map["hosts" := "files dns nis", "passwd" := "files sss"]
  {
    var es := NsswitchEntries;
    assert es[..1] == [es[0]];
  }

  lemma NsswitchSources()
    ensures SourcesOf(NsswitchEntries) == {"files", "dns", "nis", "sss"}
  {
    var es := NsswitchEntries;
    assert es[..1] == [es[0]];
    NsswitchTokens0();
    NsswitchTokens1();
  }

  /** The entries are determined line by line. */
  lemma EntriesOf(lines: seq<string>, es: seq<Option<(string, string)>>)
    requires |es| == |lines|
    requires forall i :: 0 <= i < |lines| ==> Entry(lines[i]) == es[i]
    ensures Entries(lines) == es
  {
  }

  lemma NsswitchActiveLines()
    ensures ActiveLines(NsswitchSample, '#') == NsswitchActive
  {
    forall i | 0 <= i < |NsswitchSample| ensures CleanLine(NsswitchSample[i], '#') == NsswitchCleaned[i] {
      if i == 0 { NsswitchLine0(); } else if i == 1 { NsswitchLine1(); } else { NsswitchLine2(); }
    }
    assert DropEmpty(NsswitchCleaned) == NsswitchActive;
    ActiveLinesOfCleaned(NsswitchSample, '#', NsswitchCleaned);
  }

  lemma NsswitchLine0() ensures CleanLine(NsswitchSample[0], '#') == NsswitchCleaned[0] {
    CleanLineIs(NsswitchSample[0], "", "hosts: files dns nis", "\n", "");
  }

  lemma NsswitchLine1() ensures CleanLine(NsswitchSample[1], '#') == NsswitchCleaned[1] {
    CleanLineIs(NsswitchSample[1], "", "", "", "# comment\n");
  }

  lemma NsswitchLine2() ensures CleanLine(NsswitchSample[2], '#') == NsswitchCleaned[2] {
    CleanLineIs(NsswitchSample[2], "", "passwd: files sss", "\n", "");
  }

  lemma NsswitchEntry0()
    ensures Entry(NsswitchActive[0]) == Some(("hosts", "files dns nis"))
  {
    assert NsswitchActive[0] == "hosts" + ":" + " files dns nis";
    EntryIs("hosts", " files dns nis", "hosts", "files dns nis");
  }

  lemma NsswitchEntry1()
    ensures Entry(NsswitchActive[1]) == Some(("passwd", "files sss"))
  {
    assert NsswitchActive[1] == "passwd" + ":" + " files sss";
    EntryIs("passwd", " files sss", "passwd", "files sss");
  }

  lemma NsswitchTokens0()
    ensures TokenSet("files dns nis") == {"files", "dns", "nis"}
  {
    TokensOfJoin(["files", "dns", "nis"]);
    assert Join(" ", ["files", "dns", "nis"]) == "files dns nis";
    TokenSetOf("files dns nis", ["files", "dns", "nis"]);
    SetOfThree("files", "dns", "nis");
  }

  lemma NsswitchTokens1()
    ensures TokenSet("files sss") == {"files", "sss"}
  {
    TokensOfJoin(["files", "sss"]);
    assert Join(" ", ["files", "sss"]) == "files sss";
    TokenSetOf("files sss", ["files", "sss"]);
    SetOfTwo("files", "sss");
  }

  /** A line `service:sources` with a lower-case service and a lower-case
      sources text padded by one leading blank. */
  lemma EntryIs(service: string, sources: string, k: string, v: string)
    requires ':' !in service && IsNormal(service) && k == service
    requires sources == " " + v && IsNormal(v) && v != []
    ensures Entry(service + ":" + sources) == Some((k, v))
  {
    SplitAtFirstAt(service, ':', sources);
    assert service + ":" + sources == service + [':'] + sources;
    LowerOfLower(service);
    LowerOfLower(sources);
    StripStripped(service);
    TrimStartPadded(" ", v);
    assert v + [] == v;
    TrimEndPadded(v, []);
  }

  lemma LowerOfLower(s: string)
    requires IsLowerCase(s)
    ensures Lower(s) == s
  {
  }

  // ===========================================================================
  // hostnames_in_yp_conf
  // ===========================================================================

  /** The two ways yp.conf names a NIS server. */
  datatype ServerForm =
    | DomainServer  // domain NISDOMAIN server HOSTNAME
    | YpServer      // ypserver HOSTNAME

  /** The host name `re.match` captures from one comment-free line.
      `\s*domain\s+\S+\s+server\s+(\S+)\s*` matches exactly when the
      whitespace-separated words start `domain _ server H`, capturing `H`;
      `\s*ypserver\s+(\S+)\s*` when they start `ypserver H`. */
  function Capture(form: ServerForm, line: string): (r: Option<string>)
    ensures r.Some? ==> r.value in Tokens(line) && IsWordFrom(r.value, line)
  {
    var w := Tokens(line);
    match form
    case DomainServer => if |w| >= 4 && w[0] == "domain" && w[2] == "server" then Some(w[3]) else None
    case YpServer => if |w| >= 2 && w[0] == "ypserver" then Some(w[1]) else None
  }

  /** `[l.split("#", 1)[0] for l in lines]`. */
  function StripComments(lines: seq<string>): (r: seq<string>)
    ensures |r| == |lines|
    ensures forall i :: 0 <= i < |r| ==> CommentChar !in r[i]
  {
    seq(|lines|, i requires 0 <= i < |lines| => Before(lines[i], CommentChar))
  }

  /** The capture of one server form on each line. */
  function CaptureEach(form: ServerForm, lines: seq<string>): seq<Option<string>> {
    seq(|lines|, i requires 0 <= i < |lines| => Capture(form, lines[i]))
  }

  /** The present values of a list of options, in order. */
  function Values(xs: seq<Option<string>>): (r: seq<string>)
    ensures |r| <= |xs|
  {
    if xs == [] then []
    else (if xs[0].Some? then [xs[0].value] else []) + Values(xs[1..])
  }

  /** The captures of one server form over all lines, in line order. */
  function Captures(form: ServerForm, lines: seq<string>): (r: seq<string>)
    ensures |r| <= |lines|
  {
    Values(CaptureEach(form, lines))
  }

  /** The captured names of the yp.conf lines: every `domain _ server H`
      capture, then every `ypserver H` capture. */
  function Candidates(lines: seq<string>): (r: seq<string>)
    ensures forall j :: 0 <= j < |r| ==> IsHostname(r[j])
  {
    var clean := StripComments(lines);
    CapturesAreHostnames(DomainServer, clean);
    CapturesAreHostnames(YpServer, clean);
    Captures(DomainServer, clean) + Captures(YpServer, clean)
  }

  /** The names `isIp` rejects, in their original order. */
  function NotIps(names: seq<string>, isIp: string -> bool): (r: seq<string>)
    ensures |r| <= |names|
  {
    if names == [] then []
    else
      var h := names[|names| - 1];
      NotIps(names[..|names| - 1], isIp) + (if isIp(h) then [] else [h])
  }

  /** What `hostnames_in_yp_conf` returns for the lines of a readable yp.conf. */
  function YpHostnames(lines: seq<string>, isIp: string -> bool): (r: seq<string>)
    ensures forall j :: 0 <= j < |r| ==> r[j] in Candidates(lines) && !isIp(r[j])
  {
    NotIpsFrom(Candidates(lines), isIp);
    NotIps(Candidates(lines), isIp)
  }

  /** A host name as the check can return it. */
  predicate IsHostname(h: string) {
    h != [] && NoSpace(h) && CommentChar !in h
  }

  /** `hostnames_in_yp_conf()` after the file read: `None` (Python's `False`)
      for an unreadable file, otherwise the captured names that are not IP
      literals, gathered by the loop that appends to `not_ips`. */
  method HostnamesInYpConf(ypConf: Option<seq<string>>, isIp: string -> bool) returns (r: Option<seq<string>>)
    ensures r.None? <==> ypConf.None?
    ensures ypConf.Some? ==> r.value == YpHostnames(ypConf.value, isIp)
    ensures r.Some? ==> forall j :: 0 <= j < |r.value| ==> IsHostname(r.value[j]) && !isIp(r.value[j])
  {
    if ypConf.None? {
      return None;
    }
    var hostnames := Candidates(ypConf.value);
    var notIps := [];
    var i := 0;
    while i < |hostnames|
      invariant 0 <= i <= |hostnames|
      invariant notIps == NotIps(hostnames[..i], isIp)
    {
      var h := hostnames[i];
      assert hostnames[..i + 1][..i] == hostnames[..i];
      if !isIp(h) {
        notIps := notIps + [h];
      }
      i := i + 1;
    }
    assert hostnames[..i] == hostnames;
    YpHostnamesAreHostnames(ypConf.value, isIp);
    r := Some(notIps);
  }

  lemma {:induction false} ValuesAppend(a: seq<Option<string>>, b: seq<Option<string>>)
    ensures Values(a + b) == Values(a) + Values(b)
  {
    if a != [] {
      assert (a + b)[1..] == a[1..] + b;
      ValuesAppend(a[1..], b);
    } else {
      assert a + b == b;
    }
  }

  lemma {:induction false} ValuesMember(xs: seq<Option<string>>, h: string)
    ensures h in Values(xs) <==> Some(h) in xs
  {
    if xs != [] {
      ValuesMember(xs[1..], h);
      assert xs == [xs[0]] + xs[1..];
    }
  }

  /** Captures distribute over concatenation: they come out in line order. */
  lemma CapturesAppend(form: ServerForm, a: seq<string>, b: seq<string>)
    ensures Captures(form, a + b) == Captures(form, a) + Captures(form, b)
  {
    assert CaptureEach(form, a + b) == CaptureEach(form, a) + CaptureEach(form, b);
    ValuesAppend(CaptureEach(form, a), CaptureEach(form, b));
  }

  /** A name is captured exactly when some line yields it. */
  lemma CapturesMember(form: ServerForm, lines: seq<string>, h: string)
    ensures h in Captures(form, lines) <==> exists i :: 0 <= i < |lines| && Capture(form, lines[i]) == Some(h)
  {
    var each := CaptureEach(form, lines);
    ValuesMember(each, h);
    if Some(h) in each {
      var i :| 0 <= i < |each| && each[i] == Some(h);
      assert Capture(form, lines[i]) == Some(h);
    }
    if exists i :: 0 <= i < |lines| && Capture(form, lines[i]) == Some(h) {
      var i :| 0 <= i < |lines| && Capture(form, lines[i]) == Some(h);
      assert each[i] == Some(h);
    }
  }

  /** A name captured from comment-free lines is a host name: one of a line's tokens, so non-empty, whitespace-free and without `#`. */
  lemma CapturesAreHostnames(form: ServerForm, lines: seq<string>)
    requires forall i :: 0 <= i < |lines| ==> CommentChar !in lines[i]
    ensures forall j :: 0 <= j < |Captures(form, lines)| ==> IsHostname(Captures(form, lines)[j])
  {
    var r := Captures(form, lines);
    forall j | 0 <= j < |r| ensures IsHostname(r[j]) {
      CapturesMember(form, lines, r[j]);
      var i :| 0 <= i < |lines| && Capture(form, lines[i]) == Some(r[j]);
      assert IsWordFrom(r[j], lines[i]);
    }
  }

  /** Dropping IP literals distributes over concatenation: relative order is kept. */
  lemma {:induction false} NotIpsAppend(a: seq<string>, b: seq<string>, isIp: string -> bool)
    ensures NotIps(a + b, isIp) == NotIps(a, isIp) + NotIps(b, isIp)
  {
    if b != [] {
      assert (a + b)[..|a + b| - 1] == a + b[..|b| - 1];
      NotIpsAppend(a, b[..|b| - 1], isIp);
    } else {
      assert a + b == a;
    }
  }

  /** A name survives the filter exactly when it was captured and is not an IP literal. */
  lemma {:induction false} NotIpsMember(names: seq<string>, isIp: string -> bool, h: string)
    ensures h in NotIps(names, isIp) <==> h in names && !isIp(h)
  {
    if names != [] {
      var front := names[..|names| - 1];
      NotIpsMember(front, isIp, h);
      assert names == front + [names[|names| - 1]];
    }
  }

  /** Every name `NotIps` keeps is one of its inputs. */
  lemma {:induction false} NotIpsFrom(names: seq<string>, isIp: string -> bool)
    ensures forall j :: 0 <= j < |NotIps(names, isIp)| ==>
              NotIps(names, isIp)[j] in names && !isIp(NotIps(names, isIp)[j])
  {
    forall j | 0 <= j < |NotIps(names, isIp)|
      ensures NotIps(names, isIp)[j] in names && !isIp(NotIps(names, isIp)[j])
    {
      NotIpsMember(names, isIp, NotIps(names, isIp)[j]);
    }
  }

  /** The result lists the non-IP `domain _ server H` names in line order,
      then the non-IP `ypserver H` names in line order. */
  lemma YpHostnamesOrder(lines: seq<string>, isIp: string -> bool)
    ensures YpHostnames(lines, isIp)
         == NotIps(Captures(DomainServer, StripComments(lines)), isIp)
          + NotIps(Captures(YpServer, StripComments(lines)), isIp)
  {
    var clean := StripComments(lines);
    NotIpsAppend(Captures(DomainServer, clean), Captures(YpServer, clean), isIp);
  }

  /** Every returned name is non-empty, has no whitespace and no `#`, and is not an IP literal. */
  lemma YpHostnamesAreHostnames(lines: seq<string>, isIp: string -> bool)
    ensures forall j :: 0 <= j < |YpHostnames(lines, isIp)| ==>
              IsHostname(YpHostnames(lines, isIp)[j]) && !isIp(YpHostnames(lines, isIp)[j])
  {
    var clean := StripComments(lines);
    CapturesAreHostnames(DomainServer, clean);
    CapturesAreHostnames(YpServer, clean);
    var names := Candidates(lines);
    NotIpsFrom(names, isIp);
    forall h | h in names ensures IsHostname(h) {
      var j :| 0 <= j < |names| && names[j] == h;
      if j >= |Captures(DomainServer, clean)| {
        assert h == Captures(YpServer, clean)[j - |Captures(DomainServer, clean)|];
      }
    }
  }

  /** Text after a `#` never yields a match: replacing the comment of any
      line by anything else leaves the result unchanged. */
  lemma CommentTextIgnored(lines: seq<string>, i: nat, comment: string, isIp: string -> bool)
    requires i < |lines|
    ensures YpHostnames(lines[i := Before(lines[i], CommentChar) + "#" + comment], isIp)
         == YpHostnames(lines, isIp)
  {
    var x := Before(lines[i], CommentChar);
    IndexOfAfter(x, CommentChar, comment);
    assert x + "#" + comment == x + [CommentChar] + comment;
    assert Before(x + "#" + comment, CommentChar) == x;
    assert StripComments(lines[i := x + "#" + comment]) == StripComments(lines);
  }

  /** A yp.conf sample: one server named by host name, one by IPv4 address. */
  const YpSample: seq<string> := ["domain d server ns.lan\n", "ypserver 10.0.0.5\n"]
  const YpWords0: seq<string> := ["domain", "d", "server", "ns.lan"]
  const YpWords1: seq<string> := ["ypserver", "10.0.0.5"]

  /** With the IPv4 test for `isIp`, the sample yields the host name only. */
  lemma YpExample()
    ensures YpHostnames(YpSample, Ipv4.IsIPv4Literal) == ["ns.lan"]
  {
    YpSampleClean();
    YpSampleCaptures();
    assert Candidates(YpSample) == ["ns.lan", "10.0.0.5"];
    YpSampleNotIps();
  }

  lemma YpSampleNotIps()
    ensures NotIps(["ns.lan", "10.0.0.5"], Ipv4.IsIPv4Literal) == ["ns.lan"]
  {
    Ipv4.SampleAddress();
    Ipv4.SampleHostName();
    NotIpsOfTwo("ns.lan", "10.0.0.5", Ipv4.IsIPv4Literal);
  }

  lemma NotIpsOfTwo(a: string, b: string, isIp: string -> bool)
    requires !isIp(a) && isIp(b)
    ensures NotIps([a, b], isIp) == [a]
  {
    assert [a, b][..1] == [a];
  }

  lemma YpSampleClean()
    ensures StripComments(YpSample) == YpSample
  {
    forall i | 0 <= i < |YpSample| ensures Before(YpSample[i], CommentChar) == YpSample[i] {
      if i == 0 { YpClean0(); } else { YpClean1(); }
    }
  }

  lemma YpClean0() ensures Before(YpSample[0], CommentChar) == YpSample[0] {
    assert CommentChar !in YpSample[0];
    BeforeAbsent(YpSample[0], CommentChar);
  }

  lemma YpClean1() ensures Before(YpSample[1], CommentChar) == YpSample[1] {
    assert CommentChar !in YpSample[1];
    BeforeAbsent(YpSample[1], CommentChar);
  }

  lemma YpSampleCaptures()
    ensures Captures(DomainServer, YpSample) == ["ns.lan"]
    ensures Captures(YpServer, YpSample) == ["10.0.0.5"]
  {
    YpCapture0();
    YpCapture1();
    assert CaptureEach(DomainServer, YpSample) == [Some("ns.lan"), None];
    assert CaptureEach(YpServer, YpSample) == [None, Some("10.0.0.5")];
  }

  lemma YpCapture0()
    ensures Capture(DomainServer, YpSample[0]) == Some("ns.lan")
    ensures Capture(YpServer, YpSample[0]) == None
  {
    YpTokens0();
  }

  lemma YpCapture1()
    ensures Capture(DomainServer, YpSample[1]) == None
    ensures Capture(YpServer, YpSample[1]) == Some("10.0.0.5")
  {
    YpTokens1();
  }

  lemma YpTokens0()
    ensures Tokens(YpSample[0]) == YpWords0
  {
    assert YpSample[0] == Join(" ", YpWords0) + "\n";
    TokensOfJoinThen(YpWords0, "\n");
  }

  lemma YpTokens1()
    ensures Tokens(YpSample[1]) == YpWords1
  {
    assert YpSample[1] == Join(" ", YpWords1) + "\n";
    TokensOfJoinThen(YpWords1, "\n");
  }

  // ===========================================================================
  // scan and report_error
  // ===========================================================================

  /** The severities of a framework report. */
  datatype Severity = Info | Low | Medium | High

  /** The report record handed to the framework. */
  datatype Report = Report(title: string, summary: string, severity: Severity)

  /** How `scan()` ends: it raises when nsswitch.conf could not be read
      (unpacking the `False` sentinel fails), otherwise it completes with or
      without a report. */
  datatype ScanOutcome = UnpackError | Completed(report: Option<Report>)

  const NisTitle := "Unsupported NIS configuration found"

  const SummaryPrefix := "NIS may be used for domain name resolution only if NIS "
                       + "server is specified by IP. NIS servers specified by "
                       + "host name: "

  /** `report_error(hostnames)`: a MEDIUM report whose summary ends with the
      names joined by ", ", so it names every one of them. */
  function ReportError(hostnames: seq<string>): (r: Report)
    ensures r.title == NisTitle && r.severity == Medium
    ensures StartsWith(r.summary, SummaryPrefix) && r.summary[|SummaryPrefix|..] == Join(", ", hostnames)
    ensures forall j :: 0 <= j < |hostnames| ==> Contains(r.summary, hostnames[j])
  {
    var summary := SummaryPrefix + Join(", ", hostnames);
    assert summary[..|SummaryPrefix|] == SummaryPrefix;
    forall j | 0 <= j < |hostnames| ensures Contains(summary, hostnames[j]) {
      JoinContainsEach(", ", hostnames, j);
      ContainsSuffix(SummaryPrefix, Join(", ", hostnames), hostnames[j]);
    }
    Report(NisTitle, summary, Medium)
  }

  /** `scan()`: reports exactly when "hosts" is a service, "nis" occurs as a
      substring of its sources (so "nisplus" counts too), and yp.conf names at
      least one server by host name. */
  method Scan(ypConf: Option<seq<string>>, nsswitch: Option<seq<string>>, isIp: string -> bool)
    returns (outcome: ScanOutcome)
    ensures outcome.UnpackError? <==> nsswitch.None?
    ensures nsswitch.Some? ==>
              var data := ServiceMap(ActiveLines(nsswitch.value, CommentChar));
              var hosts := if ypConf.Some? then YpHostnames(ypConf.value, isIp) else [];
              && (outcome.report.Some? <==> "hosts" in data && Contains(data["hosts"], "nis") && hosts != [])
              && (outcome.report.Some? ==> outcome.report.value == ReportError(hosts))
  {
    var hostnames := HostnamesInYpConf(ypConf, isIp);
    if nsswitch.None? {
      return UnpackError;
    }
    var data, _ := ParseContent(nsswitch.value);
    outcome := Completed(None);
    if "hosts" in data {
      if Contains(data["hosts"], "nis") && hostnames.Some? && hostnames.value != [] {
        outcome := Completed(Some(ReportError(hostnames.value)));
      }
    }
  }

  /** The "nis" condition is a substring test on the sources string, not a token test. */
  lemma SubstringNotToken()
    ensures Contains("files nisplus", "nis")
    ensures "nis" !in Tokens("files nisplus")
  {
    NisplusContainsNis();
    NisplusTokens();
    assert "nis" != "files" && "nis" != "nisplus";
  }

  lemma NisplusContainsNis()
    ensures Contains("files nisplus", "nis")
  {
    ContainsInfix("files ", "nis", "plus");
    assert "files " + "nis" + "plus" == "files nisplus";
  }

  lemma NisplusTokens()
    ensures Tokens("files nisplus") == ["files", "nisplus"]
  {
    TokensOfJoin(["files", "nisplus"]);
    assert Join(" ", ["files", "nisplus"]) == "files nisplus";
  }

  /** The two samples together: "hosts" lists nis and yp.conf names the
      server `ns.lan`, so `scan()` reports that name. */
  method ScanExample() {
    var outcome := Scan(Some(YpSample), Some(NsswitchSample), Ipv4.IsIPv4Literal);
    ParseExample();
    YpExample();
    HostsListsNis();
    assert outcome == Completed(Some(ReportError(["ns.lan"])));
  }

  lemma HostsListsNis()
    ensures Contains("files dns nis", "nis")
  {
    ContainsInfix("files dns ", "nis", "");
    assert "files dns " + "nis" + "" == "files dns nis";
  }
}
