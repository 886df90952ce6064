/** The string helpers the audit relies on: Python's `str.lower`, `str.strip`,
    `str.isdigit`, `int`, `str(int)`, `in`, `startswith`/`endswith`, the
    regular-expression search behind pandas' `str.contains`, and the
    network-location part of `urllib.parse.urlparse`. Characters outside ASCII
    get no case folding and no Unicode whitespace or digit classes. */
module Text {

  // ---------------------------------------------------------------- case

  function LowerChar(c: char): (r: char)
    ensures 'A' <= c <= 'Z' ==> 'a' <= r <= 'z'
    ensures !('A' <= c <= 'Z') ==> r == c
  {
    if 'A' <= c <= 'Z' then (c as int + 32) as char else c
  }

  /** `str.lower()` on ASCII letters. */
  function Lower(s: string): (r: string)
    ensures |r| == |s|
    ensures forall i :: 0 <= i < |s| ==> r[i] == LowerChar(s[i])
  {
    if s == [] then [] else [LowerChar(s[0])] + Lower(s[1..])
  }

  // ---------------------------------------------------------------- whitespace

  /** The ASCII characters `str.isspace()` accepts: tab to carriage return,
      the four separators 0x1c-0x1f and the space. */
  predicate IsSpace(c: char) {
    9 <= c as int <= 13 || 28 <= c as int <= 32
  }

  function TrimStart(s: string): (r: string)
    ensures |r| <= |s| && r == s[|s| - |r|..]
    ensures r == [] || !IsSpace(r[0])
    ensures forall i :: 0 <= i < |s| - |r| ==> IsSpace(s[i])
  {
    if s != [] && IsSpace(s[0]) then TrimStart(s[1..]) else s
  }

  function TrimEnd(s: string): (r: string)
    ensures |r| <= |s| && r == s[..|r|]
    ensures r == [] || !IsSpace(r[|r| - 1])
    ensures forall i :: |r| <= i < |s| ==> IsSpace(s[i])
  {
    if s != [] && IsSpace(s[|s| - 1]) then TrimEnd(s[..|s| - 1]) else s
  }

  /** `str.strip()`. */
  function Strip(s: string): string {
    TrimEnd(TrimStart(s))
  }

  lemma StripNoSpace(s: string)
    requires forall i :: 0 <= i < |s| ==> !IsSpace(s[i])
    ensures Strip(s) == s
  {
  }

  // ---------------------------------------------------------------- digits

  predicate IsDigitChar(c: char) {
    '0' <= c <= '9'
  }

  /** `str.isdigit()`: non-empty and every character a decimal digit. */
  predicate IsDigits(s: string) {
    |s| > 0 && forall i :: 0 <= i < |s| ==> IsDigitChar(s[i])
  }

  function DigitChar(d: nat): (c: char)
    requires d < 10
    ensures IsDigitChar(c) && c as int - '0' as int == d
  {
    ('0' as int + d) as char
  }

  /** `str(n)` for a non-negative integer. */
  function NatToString(n: nat): (s: string)
    ensures IsDigits(s)
    ensures n >= 10 <==> |s| > 1
  {
    if n < 10 then [DigitChar(n)] else NatToString(n / 10) + [DigitChar(n % 10)]
  }

  /** `str(i)` for any integer. */
  function IntToString(i: int): (s: string)
    ensures i >= 0 ==> IsDigits(s)
    ensures i < 0 ==> s != [] && s[0] == '-'
    ensures forall k :: 0 <= k < |s| ==> IsDigitChar(s[k]) || s[k] == '-'
  {
    if i < 0 then "-" + NatToString(-i) else NatToString(i)
  }

  function DigitValue(c: char): (d: nat)
    requires IsDigitChar(c)
    ensures d < 10
  {
    c as int - '0' as int
  }

  /** `int(s)` on a string of decimal digits. */
  function ParseDigits(s: string): nat
    requires forall i :: 0 <= i < |s| ==> IsDigitChar(s[i])
  {
    if s == [] then 0 else ParseDigits(s[..|s| - 1]) * 10 + DigitValue(s[|s| - 1])
  }

  /** Reading back the rendering of a number gives the number. */
  lemma {:induction false} ParseNatToString(n: nat)
    ensures ParseDigits(NatToString(n)) == n
  {
    if n >= 10 {
      var s := NatToString(n / 10) + [DigitChar(n % 10)];
      assert s[..|s| - 1] == NatToString(n / 10);
      ParseNatToString(n / 10);
    }
  }

  /** `str(i) == "0"` only for zero. */
  lemma IntToStringZero(i: int)
    ensures IntToString(i) == "0" <==> i == 0
  {
    if i >= 0 && NatToString(i) == "0" {
      assert i < 10;
      assert DigitChar(i) == '0';
    }
  }

  /** The rendering of an integer has no surrounding whitespace. */
  lemma IntToStringStrip(i: int)
    ensures Strip(IntToString(i)) == IntToString(i)
  {
    StripNoSpace(IntToString(i));
  }

  /** Stripping keeps every character that is not whitespace. */
  lemma StripKeeps(s: string, k: int)
    requires 0 <= k < |s| && !IsSpace(s[k])
    ensures s[k] in Strip(s)
  {
    var t := TrimStart(s);
    var r := TrimEnd(t);
    assert k >= |s| - |t|;
    var j := k - (|s| - |t|);
    assert t[j] == s[k];
    assert j < |r|;
    assert r[j] == t[j];
  }

  // ---------------------------------------------------------------- substrings

  predicate StartsWith(s: string, prefix: string) {
    |prefix| <= |s| && s[..|prefix|] == prefix
  }

  predicate EndsWith(s: string, suffix: string) {
    |suffix| <= |s| && s[|s| - |suffix|..] == suffix
  }

  predicate OccursAt(s: string, sub: string, i: int) {
    0 <= i <= |s| - |sub| && s[i..i + |sub|] == sub
  }

  /** Python's `sub in s`. */
  predicate Contains(s: string, sub: string) {
    exists i :: 0 <= i <= |s| - |sub| && OccursAt(s, sub, i)
  }

  lemma ContainsInside(pre: string, sub: string, post: string)
    ensures Contains(pre + sub + post, sub)
  {
    var s := pre + sub + post;
    assert OccursAt(s, sub, |pre|);
  }

  /** Every character of a found substring is a character of the string. */
  lemma ContainedChars(s: string, sub: string, k: nat)
    requires Contains(s, sub) && k < |sub|
    ensures sub[k] in s
  {
    var i :| 0 <= i <= |s| - |sub| && OccursAt(s, sub, i);
    assert s[i + k] == s[i..i + |sub|][k];
  }

  /** A string lacking the first character of `sub` does not contain it. */
  lemma AbsentFirst(s: string, sub: string)
    requires |sub| > 0 && sub[0] !in s
    ensures !Contains(s, sub)
  {
    forall i | 0 <= i <= |s| - |sub| ensures !OccursAt(s, sub, i) {
      assert s[i..i + |sub|][0] == s[i];
    }
  }

  /** A character of a substring found in the lower-cased string comes from
      some character of the string itself. */
  lemma FoundLowered(s: string, sub: string, k: nat) returns (i: nat)
    requires Contains(Lower(s), sub) && k < |sub|
    ensures i < |s| && LowerChar(s[i]) == sub[k]
  {
    ContainedChars(Lower(s), sub, k);
    i :| 0 <= i < |Lower(s)| && Lower(s)[i] == sub[k];
  }

  // ---------------------------------------------------------------- patterns

  /** One character of a regular expression made of literal characters and
      `.`: `.` matches anything but a newline; with `caseless` letters match
      regardless of case (`re.IGNORECASE`). */
  predicate CharMatches(c: char, p: char, caseless: bool) {
    if p == '.' then c != '\n'
    else if caseless then LowerChar(c) == LowerChar(p)
    else c == p
  }

  predicate MatchesAt(s: string, pattern: string, i: nat, caseless: bool)
    requires i + |pattern| <= |s|
  {
    forall k :: 0 <= k < |pattern| ==> CharMatches(s[i + k], pattern[k], caseless)
  }

  /** `re.search(pattern, s)` for such a pattern, which is what
      `Series.str.contains(pattern, case=not caseless)` asks of a string. */
  predicate Search(s: string, pattern: string, caseless: bool) {
    exists i :: 0 <= i <= |s| - |pattern| && MatchesAt(s, pattern, i, caseless)
  }

  /** For a pattern without `.`, a case-sensitive search is a plain substring test. */
  lemma SearchLiteral(s: string, pattern: string)
    requires '.' !in pattern
    ensures Search(s, pattern, false) <==> Contains(s, pattern)
  {
    if Search(s, pattern, false) {
      var i :| 0 <= i <= |s| - |pattern| && MatchesAt(s, pattern, i, false);
      assert OccursAt(s, pattern, i);
    }
    if Contains(s, pattern) {
      var i :| 0 <= i <= |s| - |pattern| && OccursAt(s, pattern, i);
      forall k | 0 <= k < |pattern| ensures CharMatches(s[i + k], pattern[k], false) {
        assert s[i + k] == s[i..i + |pattern|][k];
      }
      assert MatchesAt(s, pattern, i, false);
    }
  }

  /** For a pattern without `.`, a caseless search (`case=False`) is a
      substring test on the lower-cased texts. */
  lemma SearchCaseless(s: string, pattern: string)
    requires '.' !in pattern
    ensures Search(s, pattern, true) <==> Contains(Lower(s), Lower(pattern))
  {
    var ls, lp := Lower(s), Lower(pattern);
    if Search(s, pattern, true) {
      var i :| 0 <= i <= |s| - |pattern| && MatchesAt(s, pattern, i, true);
      forall k | 0 <= k < |lp| ensures ls[i..i + |lp|][k] == lp[k] {
        assert CharMatches(s[i + k], pattern[k], true);
      }
      assert ls[i..i + |lp|] == lp;
      assert OccursAt(ls, lp, i);
    }
    if Contains(ls, lp) {
      var i :| 0 <= i <= |ls| - |lp| && OccursAt(ls, lp, i);
      forall k | 0 <= k < |pattern| ensures CharMatches(s[i + k], pattern[k], true) {
        assert ls[i + k] == ls[i..i + |lp|][k];
        assert pattern[k] != '.' by {
          assert pattern[k] in pattern;
        }
      }
      assert MatchesAt(s, pattern, i, true);
    }
  }

  // ---------------------------------------------------------------- URLs

  predicate IsAsciiLetter(c: char) {
    'a' <= c <= 'z' || 'A' <= c <= 'Z'
  }

  predicate IsSchemeChar(c: char) {
    IsAsciiLetter(c) || IsDigitChar(c) || c == '+' || c == '-' || c == '.'
  }

  /** Leading C0 control characters and spaces, which `urlsplit` strips first. */
  function StripLeadingControls(s: string): (r: string)
    ensures |r| <= |s| && r == s[|s| - |r|..]
    ensures r == [] || r[0] as int > 32
  {
    if s != [] && s[0] as int <= 32 then StripLeadingControls(s[1..]) else s
  }

  /** Tab, carriage return and newline, which `urlsplit` deletes everywhere. */
  function RemoveUnsafe(s: string): (r: string)
    ensures forall c :: c in r ==> c in s && c != '\t' && c != '\r' && c != '\n'
  {
    if s == [] then []
    else (if s[0] in "\t\r\n" then [] else [s[0]]) + RemoveUnsafe(s[1..])
  }

  /** Index of the first character of `s` from `from` on that is in `stops`, or `|s|`. */
  function FindAny(s: string, stops: set<char>, from: nat): (i: nat)
    requires from <= |s|
    ensures from <= i <= |s|
    ensures i < |s| ==> s[i] in stops
    ensures forall k :: from <= k < i ==> s[k] !in stops
    decreases |s| - from
  {
    if from == |s| || s[from] in stops then from else FindAny(s, stops, from + 1)
  }

  /** What is left after the scheme: the part behind the first `:` when the
      text before it is a non-empty run of scheme characters starting with a
      letter, else everything. */
  function AfterScheme(u: string): (r: string)
    ensures |r| <= |u| && r == u[|u| - |r|..]
  {
    var i := FindAny(u, {':'}, 0);
    if 0 < i < |u| && IsAsciiLetter(u[0]) && forall k :: 0 <= k < i ==> IsSchemeChar(u[k])
    then u[i + 1..] else u
  }

  /** The network location of what follows the scheme: present only behind
      `//`, running up to the first `/`, `?` or `#`. */
  function NetLoc(u: string): (host: string)
    ensures forall c :: c in host ==> c != '/' && c != '?' && c != '#'
  {
    if |u| >= 2 && u[..2] == "//" then
      var end := FindAny(u, {'/', '?', '#'}, 2);
      assert forall k :: 2 <= k < end ==> u[k] == u[2..end][k - 2];
      u[2..end]
    else ""
  }

  /** `urlparse(url).netloc`, or `""` where `urlparse` raises (unbalanced
      brackets), as `get_domain` does. */
  function Authority(url: string): (host: string)
    ensures forall c :: c in host ==> c != '/' && c != '?' && c != '#'
    ensures ('[' in host) == (']' in host)
  {
    var host := NetLoc(AfterScheme(RemoveUnsafe(StripLeadingControls(url))));
    if ('[' in host) != (']' in host) then "" else host
  }

  /** Text without a `/` has no network location. */
  lemma NoSlashNoAuthority(url: string)
    requires '/' !in url
    ensures Authority(url) == ""
  {
    var cleaned := RemoveUnsafe(StripLeadingControls(url));
    assert '/' !in StripLeadingControls(url);
    assert '/' !in cleaned;
    var rest := AfterScheme(cleaned);
    assert '/' !in rest by {
      forall k | 0 <= k < |rest| ensures rest[k] != '/' {
        assert rest[k] == cleaned[|cleaned| - |rest| + k];
      }
    }
    assert |rest| >= 2 ==> rest[..2][0] == rest[0] && rest[0] != '/';
    assert NetLoc(rest) == "";
  }

  /** `scheme://host` followed by nothing or by a path, query or fragment has
      network location `host`. */
  lemma AuthorityOfUrl(scheme: string, host: string, rest: string)
    requires |scheme| > 0 && IsAsciiLetter(scheme[0])
    requires forall k :: 0 <= k < |scheme| ==> IsSchemeChar(scheme[k])
    requires forall k :: 0 <= k < |host| ==> host[k] as int > 32 && host[k] !in {'/', '?', '#', '[', ']'}
    requires forall k :: 0 <= k < |rest| ==> rest[k] as int > 32
    requires rest == [] || rest[0] in {'/', '?', '#'}
    ensures Authority(scheme + "://" + host + rest) == host
  {
    var tail := "//" + host + rest;
    assert scheme + ":" + tail == scheme + "://" + host + rest;
    assert Printable(scheme + ":") by {
      assert Printable(scheme);
      PrintableConcat(scheme, ":");
    }
    assert Printable(tail) by {
      assert Printable(host) && Printable(rest);
      PrintableConcat("//", host);
      PrintableConcat("//" + host, rest);
    }
    PrintableConcat(scheme + ":", tail);
    CleanUrl(scheme + ":" + tail);
    SchemeSplit(scheme, tail);
    NetLocOfTail(host, rest);
    assert '[' !in host && ']' !in host;
  }

  /** No control character and no blank. */
  predicate Printable(s: string) {
    forall k :: 0 <= k < |s| ==> s[k] as int > 32
  }

  lemma PrintableConcat(a: string, b: string)
    requires Printable(a) && Printable(b)
    ensures Printable(a + b)
  {
    forall k | |a| <= k < |a + b| ensures (a + b)[k] as int > 32 {
      assert (a + b)[k] == b[k - |a|];
    }
  }

  /** A printable URL passes the cleaning steps unchanged. */
  lemma CleanUrl(url: string)
    requires Printable(url)
    ensures RemoveUnsafe(StripLeadingControls(url)) == url
  {
    assert StripLeadingControls(url) == url;
    RemoveUnsafeKeeps(url);
  }

  lemma NetLocOfTail(host: string, rest: string)
    requires forall k :: 0 <= k < |host| ==> host[k] !in {'/', '?', '#'}
    requires rest == [] || rest[0] in {'/', '?', '#'}
    ensures NetLoc("//" + host + rest) == host
  {
    var tail := "//" + host + rest;
    var end := FindAny(tail, {'/', '?', '#'}, 2);
    assert forall k :: 2 <= k < 2 + |host| ==> tail[k] == host[k - 2];
    assert rest != [] ==> tail[2 + |host|] == rest[0];
    assert end == 2 + |host|;
    assert tail[2..end] == host;
  }

  lemma SchemeSplit(scheme: string, tail: string)
    requires |scheme| > 0 && IsAsciiLetter(scheme[0])
    requires forall k :: 0 <= k < |scheme| ==> IsSchemeChar(scheme[k])
    ensures AfterScheme(scheme + ":" + tail) == tail
  {
    var u := scheme + ":" + tail;
    assert u[|scheme|] == ':';
    assert forall k :: 0 <= k < |scheme| ==> u[k] == scheme[k];
    var i := FindAny(u, {':'}, 0);
    assert i == |scheme|;
    assert u[i + 1..] == tail;
  }

  lemma RemoveUnsafeKeeps(s: string)
    requires Printable(s)
    ensures RemoveUnsafe(s) == s
  {
    if s != [] {
      RemoveUnsafeKeeps(s[1..]);
    }
  }
}
