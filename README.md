# NIS configuration check, modelled in Dafny

The el7toel8 upgrade path checks NIS before it upgrades. RHEL 8 cannot reach
a NIS server named by host name in `/etc/yp.conf` when host names are
themselves resolved through NIS, that is, when the `hosts` entry of
`/etc/nsswitch.conf` mentions `nis`. The check reads both files and parses
them. It raises a MEDIUM report naming the offending servers.

This project models that check. It covers:

- the comment and blank-line filter `get_active_lines`;
- the nsswitch parser `parse_content`, with its loop that fills a service
  dictionary and a source set;
- the yp.conf host-name extraction `hostnames_in_yp_conf`, after the file is
  read, including its loop that drops IP literals;
- the decision in `scan`;
- the report built by `report_error`.

The model is split into four modules:

- `Wrappers`: the `Option` type.
- `Text`: the Python string operations the check uses, on ASCII text.
  These are `strip`, `lower`, `split(c, 1)`, `split(None)`, `join` and the
  substring test `p in s`.
- `NisCheck`: the check itself.
- `Ipv4`: a dotted-quad recogniser that can stand in for
  `ipaddress.ip_address`.

File contents enter as parameters: `None` means the file could not be read,
`Some(lines)` is the list `readlines()` returns. The IP-literal test is the
parameter `isIp`.

In two places the behaviour described for the check differs from its code,
and the model follows the code:

- `"nis" in data["hosts"]` is a substring test on the sources string, so
  `nisplus` counts as well (`SubstringNotToken`).
- An unreadable `/etc/nsswitch.conf` makes `scan()` raise, because unpacking
  the `False` that `scan_nsswitch` returns fails. It is not treated as a file
  without data (`ScanOutcome.UnpackError`).

The proofs cover these facts:

- `get_active_lines` keeps exactly the non-empty cleaned lines, in order, and
  gives the docstring's answer on the docstring's example.
- `parse_content`'s loop computes a dictionary in which the last line for a
  service wins and lines without `:` do nothing. Its source set is exactly
  the tokens of every `:` line, and it covers every stored value.
- The host names come in line order, `domain` form before `ypserver` form.
  Each is a whitespace-free word without `#`, and `isIp` rejects every one
  of them.
- `scan` reports exactly when the three conditions of the source hold, and
  the summary names every host name.

Verified examples cover every stage:

- the `get_active_lines` docstring example;
- a three-line nsswitch.conf;
- a two-line yp.conf whose IPv4 server is dropped;
- `ScanExample`, whose assertion states `scan`'s outcome on both samples.

## Model

| member | source | states |
|---|---|---|
| Text.Strip | repos/system_upgrade/el7toel8/actors/nischeck/libraries/nischeck.py:140 | `strip()` leaves neither a leading nor a trailing whitespace character |
| Text.StripSlice | repos/system_upgrade/el7toel8/actors/nischeck/libraries/nischeck.py:140 | `s.strip()` is a contiguous piece of `s` and only whitespace lies before and after it |
| Text.StripChars | repos/system_upgrade/el7toel8/actors/nischeck/libraries/nischeck.py:140 | stripping introduces no character that was not in the input |
| Text.StripStripped | repos/system_upgrade/el7toel8/actors/nischeck/libraries/nischeck.py:140 | an already stripped string is left unchanged |
| Text.StripKeepsLowerCase | repos/system_upgrade/el7toel8/actors/nischeck/libraries/nischeck.py:148 | `s.lower().strip()` is still lower case, and it is stripped |
| Text.Lower | repos/system_upgrade/el7toel8/actors/nischeck/libraries/nischeck.py:148 | `lower()` keeps the length, maps every character to its lower-case partner and leaves no upper-case letter |
| Text.IndexOf | repos/system_upgrade/el7toel8/actors/nischeck/libraries/nischeck.py:140 | the position of the first `c`: no `c` before it, and it holds `c` unless it is the end |
| Text.IndexOfAfter | repos/system_upgrade/el7toel8/actors/nischeck/libraries/nischeck.py:140 | in `a + c + b` with no `c` in `a`, the first `c` is at `\|a\|` |
| Text.Before | repos/system_upgrade/el7toel8/actors/nischeck/libraries/nischeck.py:140 | `s.split(c, 1)[0]` is the prefix of `s` up to the first `c`; it has no `c` and is either all of `s` or followed by `c` |
| Text.BeforeAbsent | repos/system_upgrade/el7toel8/actors/nischeck/libraries/nischeck.py:44 | a line without the marker is kept whole |
| Text.SplitAtFirst | repos/system_upgrade/el7toel8/actors/nischeck/libraries/nischeck.py:148 | `s.split(c, 1)` has two halves exactly when `c` occurs; the halves rejoin around `c` to `s`, and the first half has no `c` |
| Text.SplitAtFirstAt | repos/system_upgrade/el7toel8/actors/nischeck/libraries/nischeck.py:148 | splitting `a + c + b` at the first `c`, with no `c` in `a`, gives back `(a, b)` |
| Text.Tokens | repos/system_upgrade/el7toel8/actors/nischeck/libraries/nischeck.py:150 | every token of `split(None)` is non-empty, contains no whitespace, and uses only characters of the input |
| Text.TokenSet | repos/system_upgrade/el7toel8/actors/nischeck/libraries/nischeck.py:150 | `set(s.split(None))` holds only non-empty, whitespace-free tokens; `TokenSetOf` gives it for a known token list |
| Text.TokensOfJoin | repos/system_upgrade/el7toel8/actors/nischeck/libraries/nischeck.py:150 | round trip: `split(None)` of whitespace-free words joined by spaces gives the words back |
| Text.TokensOfJoinThen | repos/system_upgrade/el7toel8/actors/nischeck/libraries/nischeck.py:150 | trailing whitespace, such as a kept newline, adds no token |
| Text.TokensOfSpace | repos/system_upgrade/el7toel8/actors/nischeck/libraries/nischeck.py:150 | a whitespace-only string has no tokens |
| Text.TokensOfWord | repos/system_upgrade/el7toel8/actors/nischeck/libraries/nischeck.py:150 | a word followed by whitespace or by nothing is read as one whole token |
| Text.JoinAppend | repos/system_upgrade/el7toel8/actors/nischeck/libraries/nischeck.py:26 | joining two non-empty lists puts exactly one separator between their joins |
| Text.Join | repos/system_upgrade/el7toel8/actors/nischeck/libraries/nischeck.py:26 | `sep.join(xs)` begins with the first string; `JoinAppend` and `JoinContainsEach` characterise the rest |
| Text.JoinContainsEach | repos/system_upgrade/el7toel8/actors/nischeck/libraries/nischeck.py:26 | each joined name occurs as a substring of `", ".join(names)` |
| Text.ContainsIff | repos/system_upgrade/el7toel8/actors/nischeck/libraries/nischeck.py:17 | `p in s` holds exactly when `p` occurs in `s` at some position (both directions) |
| Text.ContainsInfix | repos/system_upgrade/el7toel8/actors/nischeck/libraries/nischeck.py:17 | `p` occurs in any `a + p + b` |
| Text.Contains | repos/system_upgrade/el7toel8/actors/nischeck/libraries/nischeck.py:17 | `p in s` can hold only when `p` is no longer than `s`; `ContainsIff` characterises it as occurrence at some position |
| Text.FieldsOfJoin | repos/system_upgrade/el7toel8/actors/nischeck/libraries/nischeck.py:62 | round trip for the IPv4 stand-in: splitting dot-free parts joined by `.` gives the parts back |
| Ipv4.IsIPv4Literal | repos/system_upgrade/el7toel8/actors/nischeck/libraries/nischeck.py:62 | the stand-in for `ipaddress.ip_address` accepts only strings containing a dot; `Ipv4OfParts` characterises it exactly |
| Ipv4.Ipv4OfParts | repos/system_upgrade/el7toel8/actors/nischeck/libraries/nischeck.py:62 | the stand-in for `ipaddress.ip_address` accepts four dot-free parts joined by dots exactly when every part is a decimal octet |
| Ipv4.SampleAddress | repos/system_upgrade/el7toel8/actors/nischeck/libraries/nischeck.py:62 | `10.0.0.5` parses as an address, so it is not kept |
| Ipv4.SampleHostName | repos/system_upgrade/el7toel8/actors/nischeck/libraries/nischeck.py:62 | `ns.lan` does not parse as an address, so it is kept |
| NisCheck.CleanLine | repos/system_upgrade/el7toel8/actors/nischeck/libraries/nischeck.py:140 | a line cut at its first comment marker and stripped has no marker and no outer whitespace |
| NisCheck.CleanLines | repos/system_upgrade/el7toel8/actors/nischeck/libraries/nischeck.py:140 | the generator yields one cleaned line per input line, each without the marker and stripped |
| NisCheck.CleanLineIs | repos/system_upgrade/el7toel8/actors/nischeck/libraries/nischeck.py:140 | blank padding, a stripped core, more padding and an optional `#` comment clean to exactly that core |
| NisCheck.DropEmpty | repos/system_upgrade/el7toel8/actors/nischeck/libraries/nischeck.py:140 | `filter(None, xs)` never grows the list |
| NisCheck.DropEmptyMember | repos/system_upgrade/el7toel8/actors/nischeck/libraries/nischeck.py:140 | a string survives `filter(None, ·)` exactly when it was in the input and is non-empty |
| NisCheck.DropEmptyAppend | repos/system_upgrade/el7toel8/actors/nischeck/libraries/nischeck.py:140 | the filter distributes over concatenation, so it keeps order |
| NisCheck.ActiveLines | repos/system_upgrade/el7toel8/actors/nischeck/libraries/nischeck.py:118-140 | `get_active_lines` returns no more lines than it was given; each is non-empty, has no comment marker and is stripped |
| NisCheck.ActiveLinesAppend | repos/system_upgrade/el7toel8/actors/nischeck/libraries/nischeck.py:140 | the result for `a + b` is the result for `a` followed by the result for `b`: lines are handled one at a time, in order |
| NisCheck.ActiveLinesSingle | repos/system_upgrade/el7toel8/actors/nischeck/libraries/nischeck.py:140 | one line is kept, in its cleaned form, exactly when that form is non-empty |
| NisCheck.ActiveLinesMember | repos/system_upgrade/el7toel8/actors/nischeck/libraries/nischeck.py:140 | a string is returned exactly when it is the non-empty cleaned form of some input line |
| NisCheck.ActiveLinesIdempotent | repos/system_upgrade/el7toel8/actors/nischeck/libraries/nischeck.py:118-128 | active lines are already clean: filtering them again changes nothing |
| NisCheck.ActiveLinesOfCleaned | repos/system_upgrade/el7toel8/actors/nischeck/libraries/nischeck.py:140 | the result depends only on each line's cleaned form |
| NisCheck.ActiveLinesDocstringExample | repos/system_upgrade/el7toel8/actors/nischeck/libraries/nischeck.py:130-138 | the docstring example yields `['First line', 'Inline comment', 'Whitespace', 'Last line']` |
| NisCheck.Normalize | repos/system_upgrade/el7toel8/actors/nischeck/libraries/nischeck.py:148 | `s.lower().strip()` is lower case and stripped |
| NisCheck.Entry | repos/system_upgrade/el7toel8/actors/nischeck/libraries/nischeck.py:147-148 | a line contributes a (service, sources) pair exactly when it contains `:`; both halves are lower case and stripped |
| NisCheck.ServiceMap | repos/system_upgrade/el7toel8/actors/nischeck/libraries/nischeck.py:143-152 | every key and every value of the parsed dictionary is lower case and stripped |
| NisCheck.ParseContent | repos/system_upgrade/el7toel8/actors/nischeck/libraries/nischeck.py:143-152 | `parse_content` returns the dictionary and set of its active lines; keys and values are normal, and every value's tokens are in the set |
| NisCheck.ParseLines | repos/system_upgrade/el7toel8/actors/nischeck/libraries/nischeck.py:146-151 | the loop turns the active lines into exactly `ServiceMap` and `SourceSet` of them |
| NisCheck.ParseStep | repos/system_upgrade/el7toel8/actors/nischeck/libraries/nischeck.py:147-150 | one loop pass: a line without `:` changes nothing; a `:` line stores its normalised halves and adds the tokens of the second half |
| NisCheck.ServiceMapHasKey | repos/system_upgrade/el7toel8/actors/nischeck/libraries/nischeck.py:147-149 | a service is a key exactly when some `:` line declares it (both directions) |
| NisCheck.ServiceMapLastWins | repos/system_upgrade/el7toel8/actors/nischeck/libraries/nischeck.py:149 | the value stored for a service is the one from the last line declaring it |
| NisCheck.NoColonLineIgnored | repos/system_upgrade/el7toel8/actors/nischeck/libraries/nischeck.py:147 | inserting a line without `:` anywhere changes neither the dictionary nor the source set |
| NisCheck.SourceSetMember | repos/system_upgrade/el7toel8/actors/nischeck/libraries/nischeck.py:150 | a token is in the source set exactly when some `:` line lists it, even one whose value was later overwritten |
| NisCheck.SourcesCoverServiceMap | repos/system_upgrade/el7toel8/actors/nischeck/libraries/nischeck.py:149-150 | every token of every stored value is in the source set |
| NisCheck.MapOfHasKey | repos/system_upgrade/el7toel8/actors/nischeck/libraries/nischeck.py:149 | the dictionary built from entries has a key exactly when some entry stores it |
| NisCheck.MapOfLastWins | repos/system_upgrade/el7toel8/actors/nischeck/libraries/nischeck.py:149 | an entry not followed by another for the same key decides that key's value |
| NisCheck.SourcesOfMember | repos/system_upgrade/el7toel8/actors/nischeck/libraries/nischeck.py:150 | the set built from entries holds exactly the tokens that some entry lists |
| NisCheck.MapOf | repos/system_upgrade/el7toel8/actors/nischeck/libraries/nischeck.py:149 | every stored pair comes from some entry; `MapOfHasKey` and `MapOfLastWins` characterise it |
| NisCheck.SourcesOf | repos/system_upgrade/el7toel8/actors/nischeck/libraries/nischeck.py:150 | the set holds only non-empty, whitespace-free tokens; `SourcesOfMember` characterises it |
| NisCheck.SourceSet | repos/system_upgrade/el7toel8/actors/nischeck/libraries/nischeck.py:150 | the source set of `parse_content` holds only non-empty, whitespace-free tokens; `SourceSetMember` characterises it |
| NisCheck.ParseExample | repos/system_upgrade/el7toel8/actors/nischeck/libraries/nischeck.py:143-152 | a sample with a comment line gives `{hosts: "files dns nis", passwd: "files sss"}` and the sources `{files, dns, nis, sss}` |
| NisCheck.Capture | repos/system_upgrade/el7toel8/actors/nischeck/libraries/nischeck.py:46-53 | a matched server name is one of the line's `split(None)` tokens, so it is non-empty, whitespace-free and made of the line's characters |
| NisCheck.StripComments | repos/system_upgrade/el7toel8/actors/nischeck/libraries/nischeck.py:44 | one comment-free line per input line |
| NisCheck.Captures | repos/system_upgrade/el7toel8/actors/nischeck/libraries/nischeck.py:50-53 | at most one capture per line |
| NisCheck.CapturesAppend | repos/system_upgrade/el7toel8/actors/nischeck/libraries/nischeck.py:50-53 | captures of `a + b` are the captures of `a` followed by those of `b`, so they come out in line order |
| NisCheck.CapturesMember | repos/system_upgrade/el7toel8/actors/nischeck/libraries/nischeck.py:50-53 | a name is captured exactly when some line yields it (both directions) |
| NisCheck.CapturesAreHostnames | repos/system_upgrade/el7toel8/actors/nischeck/libraries/nischeck.py:44-56 | names captured from comment-free lines are non-empty, whitespace-free and contain no `#` |
| NisCheck.Candidates | repos/system_upgrade/el7toel8/actors/nischeck/libraries/nischeck.py:44-56 | every matched name, `domain` form first, then `ypserver` form, is a host name; `YpHostnamesOrder` relates it to the result |
| NisCheck.NotIps | repos/system_upgrade/el7toel8/actors/nischeck/libraries/nischeck.py:59-64 | dropping IP literals never grows the list |
| NisCheck.NotIpsAppend | repos/system_upgrade/el7toel8/actors/nischeck/libraries/nischeck.py:59-64 | dropping IP literals distributes over concatenation, so relative order is kept |
| NisCheck.NotIpsMember | repos/system_upgrade/el7toel8/actors/nischeck/libraries/nischeck.py:59-64 | a name is kept exactly when it was captured and `isIp` rejects it (both directions) |
| NisCheck.YpHostnamesOrder | repos/system_upgrade/el7toel8/actors/nischeck/libraries/nischeck.py:50-66 | the result lists the non-IP `domain _ server H` names in line order, then the non-IP `ypserver H` names in line order |
| NisCheck.YpHostnames | repos/system_upgrade/el7toel8/actors/nischeck/libraries/nischeck.py:66 | every returned name is one of the matched names and is rejected by `isIp`; `NotIpsMember` gives the converse |
| NisCheck.YpHostnamesAreHostnames | repos/system_upgrade/el7toel8/actors/nischeck/libraries/nischeck.py:43-66 | every returned name is non-empty, whitespace-free, free of `#` and not an IP literal |
| NisCheck.CommentTextIgnored | repos/system_upgrade/el7toel8/actors/nischeck/libraries/nischeck.py:44 | replacing any line by its text before the first `#` followed by `#` and any comment leaves the result unchanged |
| NisCheck.HostnamesInYpConf | repos/system_upgrade/el7toel8/actors/nischeck/libraries/nischeck.py:36-66 | an unreadable file gives `False` (`None`); otherwise the loop returns exactly the captured non-IP names, each a valid host name |
| NisCheck.YpExample | repos/system_upgrade/el7toel8/actors/nischeck/libraries/nischeck.py:43-66 | `domain d server ns.lan` and `ypserver 10.0.0.5`, with the IPv4 test, yield `["ns.lan"]` |
| NisCheck.ReportError | repos/system_upgrade/el7toel8/actors/nischeck/libraries/nischeck.py:21-28 | the report has the fixed title and MEDIUM severity; its summary is the fixed text followed by the names joined by `", "`, so it mentions every name |
| NisCheck.Scan | repos/system_upgrade/el7toel8/actors/nischeck/libraries/nischeck.py:13-18 | an unreadable nsswitch.conf raises. Otherwise a report is made exactly when `hosts` is a service, `nis` occurs in its sources and yp.conf was read and names a server by host name; the report is `report_error` of those names |
| NisCheck.SubstringNotToken | repos/system_upgrade/el7toel8/actors/nischeck/libraries/nischeck.py:17 | `"nis" in "files nisplus"` holds although `nis` is not one of its source tokens |

## Left out

- Reading `/etc/yp.conf` and `/etc/nsswitch.conf` is not modelled (lines
  36-41 and 108-113). The caller passes the lines, or `None` when reading
  raises `IOError`.
- `scan_nsswitch` (lines 69-115) is modelled only as `Scan` calling
  `ParseContent` on the lines. Its docstring also describes an `errors`
  attribute, which the code never computes.
- `isIp` stands for `ipaddress.ip_address` (line 62), which is a library
  call. `Ipv4.IsIPv4Literal` is one instance that can be passed for it. It
  accepts dotted-quad IPv4 without leading zeros and never accepts IPv6, so
  it does not reproduce the library's exact grammar across Python versions.
- `Capture`: the two regular expressions on lines 46-47 are stated as
  rules on the `split(None)` tokens of the line. The first token must be
  `domain` with the third `server`, capturing the fourth; or the first must
  be `ypserver`, capturing the second. `re.match` anchors at the start, and
  a literal keyword followed by `\s+` must be a whole token. The group
  `(\S+)` captures the whole following token because `\S+` is greedy and the
  trailing `\s*` always succeeds, so the engine never has to backtrack
  into a shorter capture. The agreement between these rules and Python's
  regex engine is argued, not proved.
- Whitespace is the six ASCII characters space, tab, line feed, carriage
  return, vertical tab and form feed. This is the set for `strip`,
  `split(None)` and `\s`. Python 3 also treats the separators
  `\x1c`-`\x1f` and the Unicode spaces as whitespace.
- `lower()` maps only `A`-`Z`. Unicode case mapping is not modelled.
- `comment_char` of `get_active_lines` is a single character. The source
  accepts any string, but only the default `"#"` is used.
- `reporting.create_report` and the framework's report objects are not
  modelled. `ReportError` returns the title, summary and severity as a
  value, and `Scan` returns it instead of emitting it.
- The actor that calls `scan()` (`repos/system_upgrade/el7toel8/actors/nischeck/actor.py`)
  and the unrelated `efibootorderfix/eficheckboot` actor are not part of this model.
