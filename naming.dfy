/** The output file name `process_audit` builds from the client name and
    the run's timestamp, and why the merge step never picks that file up. */
module Naming {
  import opened Text
  import opened Merge

  /** `str.isalnum()` on ASCII. */
  predicate IsAlnum(c: char) {
    IsAsciiLetter(c) || IsDigitChar(c)
  }

  /** A character the client name may keep in a file name. */
  predicate Allowed(c: char) {
    IsAlnum(c) || c == ' ' || c == '-' || c == '_'
  }

  /** `"".join(c for c in s if c.isalnum() or c in (' ', '-', '_'))`. */
  function KeepAllowed(s: string): (r: string)
    ensures |r| <= |s|
    ensures forall i :: 0 <= i < |r| ==> Allowed(r[i])
  {
    if s == [] then []
    else (if Allowed(s[0]) then [s[0]] else []) + KeepAllowed(s[1..])
  }

  /** Filtering distributes over concatenation: the kept characters are
      those of each part, in order. */
  lemma {:induction false} KeepAllowedAppend(a: string, b: string)
    ensures KeepAllowed(a + b) == KeepAllowed(a) + KeepAllowed(b)
  {
    if a == [] {
      assert a + b == b;
    } else {
      assert (a + b)[0] == a[0];
      assert (a + b)[1..] == a[1..] + b;
      KeepAllowedAppend(a[1..], b);
    }
  }

  /** A string of allowed characters passes unchanged, and only such a string
      does. */
  lemma {:induction false} KeepAllowedFixed(s: string)
    ensures KeepAllowed(s) == s <==> forall i :: 0 <= i < |s| ==> Allowed(s[i])
  {
    if s != [] {
      KeepAllowedFixed(s[1..]);
      if !Allowed(s[0]) {
        assert |KeepAllowed(s)| < |s|;
      }
    }
  }

  /** The cleaned client name: the allowed characters, trailing blanks
      removed. */
  function CleanClientName(client: string): (r: string)
    ensures forall i :: 0 <= i < |r| ==> Allowed(r[i])
    ensures r == [] || r[|r| - 1] != ' '
    ensures |r| <= |KeepAllowed(client)| && r == KeepAllowed(client)[..|r|]
    ensures forall i :: |r| <= i < |KeepAllowed(client)| ==> KeepAllowed(client)[i] == ' '
  {
    TrimEnd(KeepAllowed(client))
  }

  /** Cleaning a clean name changes nothing. */
  lemma CleanIdempotent(client: string)
    ensures CleanClientName(CleanClientName(client)) == CleanClientName(client)
  {
    var c := CleanClientName(client);
    KeepAllowedFixed(c);
    assert KeepAllowed(c) == c;
  }

  /** A name of allowed characters with no trailing blank is its own clean
      form. */
  lemma CleanKeepsCleanNames(client: string)
    requires forall i :: 0 <= i < |client| ==> Allowed(client[i])
    requires client == [] || client[|client| - 1] != ' '
    ensures CleanClientName(client) == client
  {
    KeepAllowedFixed(client);
  }

  /** `output_filename`: `"{clean}_Technical_Audit_{timestamp}.xlsx"` when a
      client name was given, `"Technical_Audit_{timestamp}.xlsx"` otherwise. */
  function OutputFileName(client: string, timestamp: string): (r: string)
    ensures client == [] ==> StartsWith(r, "Technical_Audit_")
    ensures client != [] ==> StartsWith(r, CleanClientName(client) + "_Technical_Audit_")
    ensures EndsWith(r, ".xlsx")
  {
    var stem := if client == [] then "" else CleanClientName(client) + "_";
    stem + "Technical_Audit_" + timestamp + ".xlsx"
  }

  /** The report this program writes is never taken for a workbook to merge,
      whatever the client name and timestamp. */
  lemma OutputNeverCandidate(client: string, timestamp: string)
    ensures !IsCandidate(OutputFileName(client, timestamp))
  {
    var stem := if client == [] then "" else CleanClientName(client) + "_";
    assert OutputFileName(client, timestamp) == stem + "Technical_Audit" + ("_" + timestamp + ".xlsx");
    ContainsInside(stem, "Technical_Audit", "_" + timestamp + ".xlsx");
  }

  /** With a timestamp of allowed characters (`%Y%m%d_%H%M%S` gives digits
      and `_`), the file name holds only allowed characters and the dot of
      its extension: no path separator can come from the client name. */
  lemma OutputFileNameChars(client: string, timestamp: string)
    requires forall i :: 0 <= i < |timestamp| ==> Allowed(timestamp[i])
    ensures var r := OutputFileName(client, timestamp);
            forall i :: 0 <= i < |r| ==> Allowed(r[i]) || (r[i] == '.' && i == |r| - 5)
  {
    var stem := if client == [] then "" else CleanClientName(client) + "_";
    var r := OutputFileName(client, timestamp);
    var head := stem + "Technical_Audit_" + timestamp;
    assert r == head + ".xlsx";
    forall i | 0 <= i < |r| ensures Allowed(r[i]) || (r[i] == '.' && i == |r| - 5) {
      if i < |stem| {
        assert r[i] == stem[i];
      } else if i < |stem| + 16 {
        assert r[i] == "Technical_Audit_"[i - |stem|];
      } else if i < |head| {
        assert r[i] == timestamp[i - |stem| - 16];
      } else {
        assert r[i] == ".xlsx"[i - |head|];
      }
    }
  }
}
