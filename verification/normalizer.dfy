/**
 * The alert normaliser: three left-to-right regular-expression substitutions
 * (IPv4 addresses, HH:MM:SS clock times, `PID: <digits>`) followed by
 * lower-casing. Characters are treated as ASCII: `\d` is '0'..'9' and `\w`
 * is an ASCII letter, digit or '_'.
 *
 * A substitution scans the ORIGINAL string from left to right; at each
 * position it tries the pattern, and on a match emits the replacement and
 * resumes after the match, otherwise copies one character. The only context a
 * pattern needs from before the current position is whether the previous
 * character is a word character (for `\b`), carried as `afterWord`.
 */
module Normalizer {

  predicate IsDigit(c: char) { '0' <= c <= '9' }
  predicate IsUpper(c: char) { 'A' <= c <= 'Z' }
  predicate IsLower(c: char) { 'a' <= c <= 'z' }

  /** `\w`, restricted to ASCII. */
  predicate IsWord(c: char) { IsDigit(c) || IsUpper(c) || IsLower(c) || c == '_' }

  /** Length of the run of digits at the start of `s`. */
  function DigitRun(s: string): (n: nat)
    ensures n <= |s|
    ensures n > 0 ==> IsDigit(s[0]) && IsDigit(s[n - 1])
    ensures n < |s| ==> !IsDigit(s[n])
  {
    if s != [] && IsDigit(s[0]) then 1 + DigitRun(s[1..]) else 0
  }

  /** Every character of the leading run is a digit. */
  lemma {:induction false} DigitRunDigits(s: string)
    ensures forall i :: 0 <= i < DigitRun(s) ==> IsDigit(s[i])
    decreases |s|
  {
    if s != [] && IsDigit(s[0]) {
      DigitRunDigits(s[1..]);
      assert forall i :: 1 <= i < DigitRun(s) ==> s[i] == s[1..][i - 1];
    }
  }

  /**
   * Length of the match of `(\d{1,3}\.){groups}\d{1,3}\b` at the start of `s`
   * (0 when there is none). Backtracking cannot help `\d{1,3}`: it must be a
   * whole run of digits, since a shorter one is followed by a digit, which is
   * neither '.' nor a word boundary.
   */
  function AddressMatch(s: string, groups: nat): (n: nat)
    ensures n <= |s|
    ensures n > 0 ==> IsDigit(s[0]) && IsDigit(s[n - 1]) && (n == |s| || !IsWord(s[n]))
    decreases groups
  {
    var d := DigitRun(s);
    if d < 1 || 3 < d then 0
    else if groups == 0 then (if d == |s| || !IsWord(s[d]) then d else 0)
    else if d < |s| && s[d] == '.' then
      var rest := AddressMatch(s[d + 1..], groups - 1);
      if rest == 0 then 0 else d + 1 + rest
    else 0
  }

  /** Only an address is matched: the matched text is `groups` dotted groups and one more. */
  lemma {:induction false} AddressMatchIsAddress(s: string, groups: nat, n: nat)
    requires n == AddressMatch(s, groups) > 0
    ensures IsDottedGroups(s[..n], groups)
    decreases groups
  {
    if groups == 0 {
      LastGroupPrefix(s, n);
    } else {
      var t, rest := AddressMatchStep(s, groups, n);
      AddressMatchIsAddress(t, groups - 1, rest);
    }
  }

  /**
   * A match of more than one group is a dotted group followed by a match
   * `rest` of one group fewer in `t`; the whole match is dotted groups when
   * that one is.
   */
  lemma AddressMatchStep(s: string, groups: nat, n: nat) returns (t: string, rest: nat)
    requires 0 < groups && n == AddressMatch(s, groups) > 0
    ensures rest == AddressMatch(t, groups - 1) > 0
    ensures IsDottedGroups(t[..rest], groups - 1) ==> IsDottedGroups(s[..n], groups)
  {
    var d := DigitRun(s);
    t := s[d + 1..];
    rest := AddressMatch(t, groups - 1);
    GroupPrefix(s, d, t, rest, n, groups);
  }

  /** A prefix that extends past the leading digits has the same leading digits. */
  lemma DigitRunOfPrefix(s: string, n: nat)
    requires DigitRun(s) <= n <= |s|
    ensures DigitRun(s[..n]) == DigitRun(s)
  {
    var d, p := DigitRun(s), s[..n];
    DigitRunDigits(s);
    assert forall i :: 0 <= i < d ==> p[i] == s[i];
    assert d < |p| ==> p[d] == s[d];
    DigitRunIs(p, d);
  }

  /** The leading run is `d` long when `d` digits are followed by the end or a non-digit. */
  lemma {:induction false} DigitRunIs(t: string, d: nat)
    requires d <= |t| && forall i :: 0 <= i < d ==> IsDigit(t[i])
    requires d == |t| || !IsDigit(t[d])
    ensures DigitRun(t) == d
    decreases d
  {
    if d > 0 {
      assert forall i :: 0 <= i < d - 1 ==> t[1..][i] == t[i + 1];
      assert d - 1 < |t[1..]| ==> t[1..][d - 1] == t[d];
      DigitRunIs(t[1..], d - 1);
    }
  }

  /** A match of the last group is the leading run of digits. */
  lemma LastGroupPrefix(s: string, n: nat)
    requires n == AddressMatch(s, 0) > 0
    ensures IsDottedGroups(s[..n], 0)
  {
    assert n == DigitRun(s);
    DigitRunOfPrefix(s, n);
  }

  /** A dotted group followed by the prefix of `s[d + 1..]` that holds the remaining groups. */
  lemma GroupPrefix(s: string, d: nat, t: string, rest: nat, n: nat, groups: nat)
    requires 0 < groups && d == DigitRun(s) && 1 <= d <= 3 && d < |s| && s[d] == '.' && t == s[d + 1..]
    requires n == d + 1 + rest && rest <= |t|
    ensures IsDottedGroups(t[..rest], groups - 1) ==> IsDottedGroups(s[..n], groups)
  {
    var p := s[..n];
    DigitRunOfPrefix(s, n);
    assert p[d + 1..] == t[..rest];
  }

  /** `s` starts with `\d{2}:\d{2}:\d{2}` followed by a word boundary. */
  predicate IsClockAt(s: string)
  {
    && |s| >= 8
    && IsDigit(s[0]) && IsDigit(s[1]) && s[2] == ':'
    && IsDigit(s[3]) && IsDigit(s[4]) && s[5] == ':'
    && IsDigit(s[6]) && IsDigit(s[7])
    && (|s| == 8 || !IsWord(s[8]))
  }

  const PidLabel: string := "PID: "

  /** Length of the match of `PID: \d+` at the start of `s` (0 when there is none). */
  function PidMatch(s: string): (n: nat)
    ensures n <= |s|
    ensures n > 0 ==> 5 < n && s[..5] == PidLabel && IsDigit(s[n - 1]) && (n == |s| || !IsDigit(s[n]))
  {
    if |s| >= 5 && s[..5] == PidLabel && DigitRun(s[5..]) > 0 then 5 + DigitRun(s[5..]) else 0
  }

  /** Only a PID field is matched: the label, then digits only. */
  lemma PidMatchIsField(s: string)
    ensures var n := PidMatch(s); n > 0 ==> s[..5] == PidLabel && AllDigits(s[5..n])
  {
    var n := PidMatch(s);
    if n > 0 {
      DigitRunDigits(s[5..]);
      assert s[5..n] == s[5..][..n - 5];
    }
  }

  /** Matcher of `\b(?:\d{1,3}\.){3}\d{1,3}\b`; `afterWord` says whether the character before `s` is a word character. */
  function AddressAt(afterWord: bool, s: string): (n: nat)
    ensures n <= |s|
    ensures n > 0 ==> IsDigit(s[n - 1])
    ensures afterWord ==> n == 0
  {
    if afterWord then 0 else AddressMatch(s, 3)
  }

  /** The address matcher matches nothing but a whole dotted address followed by a word boundary. */
  lemma AddressAtMatchesAddress(afterWord: bool, s: string)
    ensures var n := AddressAt(afterWord, s); n > 0 ==> IsIpv4Address(s[..n]) && (n == |s| || !IsWord(s[n]))
  {
    if AddressAt(afterWord, s) > 0 {
      AddressMatchIsAddress(s, 3, AddressAt(afterWord, s));
    }
  }

  /** Matcher of `\b\d{2}:\d{2}:\d{2}\b`. */
  function ClockAt(afterWord: bool, s: string): (n: nat)
    ensures n <= |s|
    ensures n > 0 ==> IsDigit(s[n - 1])
    ensures afterWord ==> n == 0
    ensures n == 0 || (n == 8 && IsClockTime(s[..8]) && (|s| == 8 || !IsWord(s[8])))
  {
    if !afterWord && IsClockAt(s) then assert IsClockTime(s[..8]); 8 else 0
  }

  /** Matcher of `PID: \d+` (no word boundary involved). */
  function PidAt(afterWord: bool, s: string): (n: nat)
    ensures n <= |s|
    ensures n > 0 ==> IsDigit(s[n - 1])
    ensures n == PidMatch(s)
  {
    PidMatch(s)
  }

  /**
   * Python's `re.sub` on the suffix `s` of a message: `matchAt(afterWord, s)`
   * is the length of the match at the start of `s` (0 when there is none) and
   * `rep` the replacement. Matches never overlap, and the context of the next
   * attempt is taken from the original text, not from the replacement.
   */
  function SubstituteWith(matchAt: (bool, string) -> nat, rep: string, afterWord: bool, s: string): string
    decreases |s|
  {
    if s == [] then []
    else
      var n := matchAt(afterWord, s);
      if 0 < n <= |s| then rep + SubstituteWith(matchAt, rep, IsWord(s[n - 1]), s[n..])
      else [s[0]] + SubstituteWith(matchAt, rep, IsWord(s[0]), s[1..])
  }

  /** `ip_pattern.sub('IP_ADDR', s)` */
  function Addresses(afterWord: bool, s: string): string { SubstituteWith(AddressAt, "IP_ADDR", afterWord, s) }

  /** `timestamp_pattern.sub('TIMESTAMP', s)` */
  function Clocks(afterWord: bool, s: string): string { SubstituteWith(ClockAt, "TIMESTAMP", afterWord, s) }

  /** `pid_pattern.sub('PID: XXX', s)` */
  function Pids(afterWord: bool, s: string): string { SubstituteWith(PidAt, "PID: XXX", afterWord, s) }

  /** Lower-casing of one ASCII character. */
  function LowerChar(c: char): (r: char)
    ensures !IsUpper(r)
    ensures !IsUpper(c) ==> r == c
    ensures IsUpper(c) ==> IsLower(r) && r as int - 'a' as int == c as int - 'A' as int
  {
    if IsUpper(c) then (c as int - 'A' as int + 'a' as int) as char else c
  }

  /** `str.lower()` on ASCII text. */
  function Lower(s: string): (r: string)
    ensures |r| == |s|
    decreases |s|
  {
    if s == [] then [] else [LowerChar(s[0])] + Lower(s[1..])
  }

  /** Lower-casing works character by character. */
  lemma {:induction false} LowerChars(s: string)
    ensures forall i :: 0 <= i < |s| ==> Lower(s)[i] == LowerChar(s[i])
    decreases |s|
  {
    if s != [] {
      LowerChars(s[1..]);
      assert forall i :: 1 <= i < |s| ==> Lower(s)[i] == Lower(s[1..])[i - 1];
    }
  }

  /**
   * `preprocess_alert`: the normalised key of a raw alert message. The
   * address, clock-time and PID substitutions run in that order, each on the
   * output of the one before, and the result is lower-cased.
   */
  function Normalize(message: string): string
  {
    Lower(Pids(false, Clocks(false, Addresses(false, message))))
  }

  /** A key never holds an upper-case letter. */
  lemma NormalizeIsLowerCase(message: string)
    ensures forall i :: 0 <= i < |Normalize(message)| ==> !IsUpper(Normalize(message)[i])
  {
    LowerChars(Pids(false, Clocks(false, Addresses(false, message))));
  }

  /** Lower-casing a key again changes nothing. */
  lemma LowerIdempotent(s: string)
    ensures Lower(Lower(s)) == Lower(s)
  {
    LowerChars(s);
    LowerChars(Lower(s));
  }

  /** Two strings of the same length whose characters lower-case pairwise. */
  lemma LowerIs(s: string, r: string)
    requires |s| == |r| && forall i :: 0 <= i < |s| ==> LowerChar(s[i]) == r[i]
    ensures Lower(s) == r
  {
    LowerChars(s);
  }

  /** Lower-casing works piece by piece. */
  lemma LowerAppend(u: string, v: string)
    ensures Lower(u + v) == Lower(u) + Lower(v)
  {
    LowerChars(u);
    LowerChars(v);
    var r := Lower(u) + Lower(v);
    assert forall i :: 0 <= i < |u + v| ==> LowerChar((u + v)[i]) == r[i] by {
      forall i | 0 <= i < |u + v|
        ensures LowerChar((u + v)[i]) == r[i]
      {
        if i >= |u| {
          assert (u + v)[i] == v[i - |u|];
        }
      }
    }
    LowerIs(u + v, r);
  }

  /** The address placeholder is lower-cased into `ip_addr`. */
  lemma AddressPlaceholderLowered()
    ensures Lower("IP_ADDR") == "ip_addr"
  {
    LowerIs("IP_ADDR", "ip_addr");
  }

  /** The clock placeholder is lower-cased into `timestamp`. */
  lemma ClockPlaceholderLowered()
    ensures Lower("TIMESTAMP") == "timestamp"
  {
    LowerIs("TIMESTAMP", "timestamp");
  }

  /** The PID placeholder is lower-cased into `pid: xxx`. */
  lemma PidPlaceholderLowered()
    ensures Lower("PID: XXX") == "pid: xxx"
  {
    LowerIs("PID: XXX", "pid: xxx");
  }

  // ---------------------------------------------------------------------
  // What the varying parts of a message look like
  // ---------------------------------------------------------------------

  /** `s` is `groups` dot-terminated groups of one to three digits, then one more group. */
  predicate IsDottedGroups(s: string, groups: nat)
    decreases groups
  {
    var d := DigitRun(s);
    && 1 <= d <= 3
    && if groups == 0 then d == |s|
       else d < |s| && s[d] == '.' && IsDottedGroups(s[d + 1..], groups - 1)
  }

  /** A dotted IPv4 address as the pattern reads it (1-3 digits per group, no range check). */
  predicate IsIpv4Address(s: string) { IsDottedGroups(s, 3) }

  /** A clock time `HH:MM:SS` (any two digits per field, as the pattern reads it). */
  predicate IsClockTime(s: string) { |s| == 8 && IsClockAt(s) }

  predicate AllDigits(s: string) { s != [] && forall i :: 0 <= i < |s| ==> IsDigit(s[i]) }

  /**
   * A character that can border a varying part without belonging to any
   * pattern: not a word character, not '.', not ':'.
   */
  predicate IsSeparator(c: char) { !IsWord(c) && c != '.' && c != ':' }


  // ---------------------------------------------------------------------
  // How a substitution decomposes (for any matcher)
  // ---------------------------------------------------------------------

  function AfterWord(afterWord: bool, u: string): bool
  {
    if u == [] then afterWord else IsWord(u[|u| - 1])
  }

  /**
   * Every match that starts inside `u` ends inside `u`, and what follows `u`
   * does not change it (for either context, at every position of `u`).
   */
  ghost predicate ContainedIn(matchAt: (bool, string) -> nat, u: string, v: string)
    decreases |u|
  {
    u == [] ||
    (&& matchAt(false, u + v) == matchAt(false, u) < |u|
     && matchAt(true, u + v) == matchAt(true, u) < |u|
     && ContainedIn(matchAt, u[1..], v))
  }

  /** No match starts anywhere inside `s` (followed by `v`). */
  ghost predicate SilentOn(matchAt: (bool, string) -> nat, s: string, v: string)
    decreases |s|
  {
    s == [] || (matchAt(false, s + v) == 0 && matchAt(true, s + v) == 0 && SilentOn(matchAt, s[1..], v))
  }

  /** Every match lies within the text and ends with a digit. */
  ghost predicate EndsOnDigit(matchAt: (bool, string) -> nat)
  {
    forall w, t :: matchAt(w, t) <= |t| && (0 < matchAt(w, t) ==> IsDigit(t[matchAt(w, t) - 1]))
  }

  lemma {:induction false} ContainedInSuffix(matchAt: (bool, string) -> nat, u: string, v: string, j: nat)
    requires ContainedIn(matchAt, u, v) && j <= |u|
    ensures ContainedIn(matchAt, u[j..], v)
    decreases j
  {
    if j == 0 {
      assert u[j..] == u;
    } else {
      assert u[1..][j - 1..] == u[j..];
      ContainedInSuffix(matchAt, u[1..], v, j - 1);
    }
  }

  lemma ConcatAssoc(x: string, y: string, z: string)
    ensures x + (y + z) == (x + y) + z
  {}

  /** One step of a substitution at a match. */
  lemma MatchStep(matchAt: (bool, string) -> nat, rep: string, afterWord: bool, s: string)
    requires 0 < matchAt(afterWord, s) <= |s|
    ensures var n := matchAt(afterWord, s);
      SubstituteWith(matchAt, rep, afterWord, s) == rep + SubstituteWith(matchAt, rep, IsWord(s[n - 1]), s[n..])
  {}

  /** One step of a substitution where nothing matches. */
  lemma CopyStep(matchAt: (bool, string) -> nat, rep: string, afterWord: bool, s: string)
    requires s != [] && matchAt(afterWord, s) == 0
    ensures SubstituteWith(matchAt, rep, afterWord, s) == [s[0]] + SubstituteWith(matchAt, rep, IsWord(s[0]), s[1..])
  {}

  lemma SplitAtMatch(matchAt: (bool, string) -> nat, rep: string, afterWord: bool, u: string, v: string)
    requires 0 < matchAt(afterWord, u) == matchAt(afterWord, u + v) <= |u|
    requires var n := matchAt(afterWord, u);
      SubstituteWith(matchAt, rep, IsWord(u[n - 1]), u[n..] + v)
      == SubstituteWith(matchAt, rep, IsWord(u[n - 1]), u[n..]) + SubstituteWith(matchAt, rep, AfterWord(afterWord, u), v)
    ensures SubstituteWith(matchAt, rep, afterWord, u + v)
         == SubstituteWith(matchAt, rep, afterWord, u) + SubstituteWith(matchAt, rep, AfterWord(afterWord, u), v)
  {
    var n := matchAt(afterWord, u);
    var a := SubstituteWith(matchAt, rep, IsWord(u[n - 1]), u[n..]);
    var b := SubstituteWith(matchAt, rep, AfterWord(afterWord, u), v);
    assert SubstituteWith(matchAt, rep, afterWord, u + v) == rep + (a + b) by {
      MatchStep(matchAt, rep, afterWord, u + v);
      assert (u + v)[n..] == u[n..] + v;
      assert (u + v)[n - 1] == u[n - 1];
    }
    assert SubstituteWith(matchAt, rep, afterWord, u) == rep + a by {
      MatchStep(matchAt, rep, afterWord, u);
    }
    ConcatAssoc(rep, a, b);
  }

  lemma CopyStepAppend(matchAt: (bool, string) -> nat, rep: string, afterWord: bool, u: string, v: string)
    requires u != [] && matchAt(afterWord, u + v) == 0
    ensures SubstituteWith(matchAt, rep, afterWord, u + v) == [u[0]] + SubstituteWith(matchAt, rep, IsWord(u[0]), u[1..] + v)
  {
    CopyStep(matchAt, rep, afterWord, u + v);
    assert (u + v)[1..] == u[1..] + v;
  }

  lemma SplitAtCopy(matchAt: (bool, string) -> nat, rep: string, afterWord: bool, u: string, v: string)
    requires u != [] && matchAt(afterWord, u) == matchAt(afterWord, u + v) == 0
    requires SubstituteWith(matchAt, rep, IsWord(u[0]), u[1..] + v)
      == SubstituteWith(matchAt, rep, IsWord(u[0]), u[1..]) + SubstituteWith(matchAt, rep, AfterWord(afterWord, u), v)
    ensures SubstituteWith(matchAt, rep, afterWord, u + v)
         == SubstituteWith(matchAt, rep, afterWord, u) + SubstituteWith(matchAt, rep, AfterWord(afterWord, u), v)
  {
    var a := SubstituteWith(matchAt, rep, IsWord(u[0]), u[1..]);
    var b := SubstituteWith(matchAt, rep, AfterWord(afterWord, u), v);
    CopyStepAppend(matchAt, rep, afterWord, u, v);
    CopyStep(matchAt, rep, afterWord, u);
    ConcatAssoc([u[0]], a, b);
  }

  /** Substitution distributes over a point that no match crosses. */
  lemma {:induction false} SplitWith(matchAt: (bool, string) -> nat, rep: string, afterWord: bool, u: string, v: string)
    requires ContainedIn(matchAt, u, v)
    ensures SubstituteWith(matchAt, rep, afterWord, u + v)
         == SubstituteWith(matchAt, rep, afterWord, u) + SubstituteWith(matchAt, rep, AfterWord(afterWord, u), v)
    decreases |u|, 1
  {
    if u == [] {
      assert u + v == v;
    } else if matchAt(afterWord, u) > 0 {
      SplitWithAtMatch(matchAt, rep, afterWord, u, v);
    } else {
      SplitWithAtCopy(matchAt, rep, afterWord, u, v);
    }
  }

  lemma {:induction false} SplitWithAtMatch(matchAt: (bool, string) -> nat, rep: string, afterWord: bool, u: string, v: string)
    requires ContainedIn(matchAt, u, v) && u != [] && matchAt(afterWord, u) > 0
    ensures SubstituteWith(matchAt, rep, afterWord, u + v)
         == SubstituteWith(matchAt, rep, afterWord, u) + SubstituteWith(matchAt, rep, AfterWord(afterWord, u), v)
    decreases |u|, 0
  {
    var n := matchAt(afterWord, u);
    var rest := u[n..];
    assert 0 < matchAt(afterWord, u + v) == n < |u| && ContainedIn(matchAt, rest, v) by {
      ContainedInSuffix(matchAt, u, v, n);
    }
    assert AfterWord(IsWord(u[n - 1]), rest) == AfterWord(afterWord, u) by {
      assert rest[|rest| - 1] == u[|u| - 1];
    }
    SplitWith(matchAt, rep, IsWord(u[n - 1]), rest, v);
    SplitAtMatch(matchAt, rep, afterWord, u, v);
  }

  lemma {:induction false} SplitWithAtCopy(matchAt: (bool, string) -> nat, rep: string, afterWord: bool, u: string, v: string)
    requires ContainedIn(matchAt, u, v) && u != [] && matchAt(afterWord, u) == 0
    ensures SubstituteWith(matchAt, rep, afterWord, u + v)
         == SubstituteWith(matchAt, rep, afterWord, u) + SubstituteWith(matchAt, rep, AfterWord(afterWord, u), v)
    decreases |u|, 0
  {
    var rest := u[1..];
    assert matchAt(afterWord, u + v) == 0 && ContainedIn(matchAt, rest, v) by {
      ContainedInSuffix(matchAt, u, v, 1);
    }
    assert AfterWord(IsWord(u[0]), rest) == AfterWord(afterWord, u) by {
      if rest != [] {
        assert rest[|rest| - 1] == u[|u| - 1];
      }
    }
    SplitWith(matchAt, rep, IsWord(u[0]), rest, v);
    SplitAtCopy(matchAt, rep, afterWord, u, v);
  }

  /** A stretch in which no match starts is copied unchanged. */
  lemma {:induction false} CopyWith(matchAt: (bool, string) -> nat, rep: string, afterWord: bool, s: string, v: string)
    requires SilentOn(matchAt, s, v)
    ensures SubstituteWith(matchAt, rep, afterWord, s + v) == s + SubstituteWith(matchAt, rep, AfterWord(afterWord, s), v)
    decreases |s|
  {
    if s == [] {
      assert s + v == v;
    } else {
      var rest := s[1..];
      var b := SubstituteWith(matchAt, rep, AfterWord(afterWord, s), v);
      assert matchAt(afterWord, s + v) == 0 && SilentOn(matchAt, rest, v);
      assert AfterWord(IsWord(s[0]), rest) == AfterWord(afterWord, s) by {
        if rest != [] {
          assert rest[|rest| - 1] == s[|s| - 1];
        }
      }
      CopyWith(matchAt, rep, IsWord(s[0]), rest, v);
      assert (s + v)[1..] == rest + v && (s + v)[0] == s[0];
      CopyStep(matchAt, rep, afterWord, s + v);
      ConcatAssoc([s[0]], rest, b);
      assert [s[0]] + rest == s;
    }
  }

  /** When no match reaches the last character, it is copied and stays last. */
  lemma {:induction false} KeepsLastWith(matchAt: (bool, string) -> nat, rep: string, afterWord: bool, u: string)
    requires u != [] && ContainedIn(matchAt, u, [])
    ensures var r := SubstituteWith(matchAt, rep, afterWord, u); r != [] && r[|r| - 1] == u[|u| - 1]
    decreases |u|, 1
  {
    if matchAt(afterWord, u) > 0 {
      KeepsLastAtMatch(matchAt, rep, afterWord, u);
    } else {
      KeepsLastAtCopy(matchAt, rep, afterWord, u);
    }
  }

  lemma {:induction false} KeepsLastAtMatch(matchAt: (bool, string) -> nat, rep: string, afterWord: bool, u: string)
    requires u != [] && ContainedIn(matchAt, u, []) && matchAt(afterWord, u) > 0
    ensures var r := SubstituteWith(matchAt, rep, afterWord, u); r != [] && r[|r| - 1] == u[|u| - 1]
    decreases |u|, 0
  {
    var n := matchAt(afterWord, u);
    var rest := u[n..];
    assert n < |u| && ContainedIn(matchAt, rest, []) by {
      assert u + [] == u;
      ContainedInSuffix(matchAt, u, [], n);
    }
    assert rest[|rest| - 1] == u[|u| - 1];
    KeepsLastWith(matchAt, rep, IsWord(u[n - 1]), rest);
    MatchStep(matchAt, rep, afterWord, u);
    LastOfAppend(SubstituteWith(matchAt, rep, afterWord, u), rep, SubstituteWith(matchAt, rep, IsWord(u[n - 1]), rest));
  }

  lemma {:induction false} KeepsLastAtCopy(matchAt: (bool, string) -> nat, rep: string, afterWord: bool, u: string)
    requires u != [] && ContainedIn(matchAt, u, []) && matchAt(afterWord, u) == 0
    ensures var r := SubstituteWith(matchAt, rep, afterWord, u); r != [] && r[|r| - 1] == u[|u| - 1]
    decreases |u|, 0
  {
    var rest := u[1..];
    CopyStep(matchAt, rep, afterWord, u);
    if rest == [] {
      assert SubstituteWith(matchAt, rep, IsWord(u[0]), rest) == [];
    } else {
      assert ContainedIn(matchAt, rest, []) by {
        ContainedInSuffix(matchAt, u, [], 1);
      }
      assert rest[|rest| - 1] == u[|u| - 1];
      KeepsLastWith(matchAt, rep, IsWord(u[0]), rest);
      LastOfAppend(SubstituteWith(matchAt, rep, afterWord, u), [u[0]], SubstituteWith(matchAt, rep, IsWord(u[0]), rest));
    }
  }

  lemma LastOfAppend(c: string, a: string, b: string)
    requires c == a + b && b != []
    ensures c != [] && c[|c| - 1] == b[|b| - 1]
  {}

  lemma {:induction false} DigitFreeIsSilent(matchAt: (bool, string) -> nat, s: string)
    requires EndsOnDigit(matchAt)
    requires forall j :: 0 <= j < |s| ==> !IsDigit(s[j])
    ensures SilentOn(matchAt, s, [])
    decreases |s|
  {
    if s != [] {
      assert s + [] == s;
      DigitFreeIsSilent(matchAt, s[1..]);
    }
  }

  // ---------------------------------------------------------------------
  // Facts about the three matchers
  // ---------------------------------------------------------------------

  lemma {:induction false} DigitRunAppend(u: string, v: string)
    requires DigitRun(u) < |u| || v == [] || !IsDigit(v[0])
    ensures DigitRun(u + v) == DigitRun(u)
    decreases |u|
  {
    if u == [] {
      assert u + v == v;
    } else if IsDigit(u[0]) {
      assert (u + v)[1..] == u[1..] + v;
      DigitRunAppend(u[1..], v);
    }
  }

  lemma {:induction false} AddressMatchInside(u: string, v: string, groups: nat)
    requires u != [] && !IsDigit(u[|u| - 1]) && u[|u| - 1] != '.'
    ensures AddressMatch(u + v, groups) == AddressMatch(u, groups) < |u|
    decreases groups
  {
    var d := DigitRun(u);
    assert d < |u|;
    assert DigitRun(u + v) == d by {
      DigitRunAppend(u, v);
    }
    assert (u + v)[d] == u[d];
    if 1 <= d <= 3 && groups > 0 && u[d] == '.' {
      var rest := u[d + 1..];
      assert (u + v)[d + 1..] == rest + v;
      assert rest != [] && rest[|rest| - 1] == u[|u| - 1];
      AddressMatchInside(rest, v, groups - 1);
    }
  }

  lemma {:induction false} AddressContained(u: string, v: string)
    requires u != [] && !IsDigit(u[|u| - 1]) && u[|u| - 1] != '.'
    ensures ContainedIn(AddressAt, u, v)
    decreases |u|
  {
    AddressMatchInside(u, v, 3);
    if |u| > 1 {
      AddressContained(u[1..], v);
    }
  }

  lemma ClockInside(u: string, v: string)
    requires u != [] && !IsDigit(u[|u| - 1]) && u[|u| - 1] != ':'
    ensures IsClockAt(u + v) == IsClockAt(u)
    ensures IsClockAt(u) ==> 8 < |u|
  {
    var s := u + v;
    if |u| <= 8 {
      var k := |u| - 1;
      assert s[k] == u[k];
    } else {
      assert forall i :: 0 <= i <= 8 ==> s[i] == u[i];
    }
  }

  lemma {:induction false} ClockContained(u: string, v: string)
    requires u != [] && !IsDigit(u[|u| - 1]) && u[|u| - 1] != ':'
    ensures ContainedIn(ClockAt, u, v)
    decreases |u|
  {
    ClockInside(u, v);
    if |u| > 1 {
      ClockContained(u[1..], v);
    }
  }

  lemma {:induction false} NoAddressWithoutDot(s: string, v: string)
    requires forall j :: 0 <= j < |s| ==> s[j] != '.'
    requires v == [] || (!IsDigit(v[0]) && v[0] != '.')
    ensures SilentOn(AddressAt, s, v)
    decreases |s|
  {
    if s != [] {
      DigitRunAppend(s, v);
      var d := DigitRun(s);
      if d == |s| && v != [] {
        assert (s + v)[d] == v[0];
      } else if d < |s| {
        assert (s + v)[d] == s[d];
      }
      NoAddressWithoutDot(s[1..], v);
    }
  }

  /** No clock time starts in `s` when no ':' in it follows a digit. */
  lemma {:induction false} NoClockWithoutColon(s: string, v: string)
    requires forall j :: 1 <= j < |s| && s[j] == ':' ==> !IsDigit(s[j - 1])
    requires v == [] || (!IsDigit(v[0]) && v[0] != ':')
    ensures SilentOn(ClockAt, s, v)
    decreases |s|
  {
    if s != [] {
      var t := s + v;
      if 2 < |s| {
        assert t[1] == s[1] && t[2] == s[2];
      } else if |s| < |t| {
        assert t[|s|] == v[0];
      }
      NoClockWithoutColon(s[1..], v);
    }
  }

  /** The last group of an address that is followed by a non-word character. */
  lemma AddressMatchLastGroup(s: string, v: string)
    requires IsDottedGroups(s, 0)
    requires v == [] || !IsWord(v[0])
    ensures AddressMatch(s + v, 0) == |s|
  {
    DigitRunAppend(s, v);
    assert |s| == |s + v| || (s + v)[|s|] == v[0];
  }

  /** A dotted group followed by the rest of an address. */
  lemma AddressMatchGroup(t: string, groups: nat)
    requires 0 < groups
    requires var d := DigitRun(t); 1 <= d <= 3 && d < |t| && t[d] == '.'
    requires AddressMatch(t[DigitRun(t) + 1..], groups - 1) > 0
    ensures AddressMatch(t, groups) == DigitRun(t) + 1 + AddressMatch(t[DigitRun(t) + 1..], groups - 1)
  {}

  lemma {:induction false} AddressMatchWhole(s: string, v: string, groups: nat)
    requires IsDottedGroups(s, groups)
    requires v == [] || !IsWord(v[0])
    ensures AddressMatch(s + v, groups) == |s|
    decreases groups
  {
    if groups == 0 {
      AddressMatchLastGroup(s, v);
    } else {
      var d := DigitRun(s);
      var t := s + v;
      DigitRunAppend(s, v);
      assert t[d] == '.' && t[d + 1..] == s[d + 1..] + v;
      AddressMatchWhole(s[d + 1..], v, groups - 1);
      AddressMatchGroup(t, groups);
    }
  }

  // ---------------------------------------------------------------------
  // Each varying part becomes its placeholder
  // ---------------------------------------------------------------------

  lemma AddressWhole(x: string, b: string)
    requires IsIpv4Address(x)
    requires b == [] || !IsWord(b[0])
    ensures Addresses(false, x + b) == "IP_ADDR" + Addresses(true, b)
  {
    var s := x + b;
    assert AddressAt(false, s) == |x| > 0 by {
      AddressMatchWhole(x, b, 3);
    }
    assert s[|x|..] == b;
    MatchStep(AddressAt, "IP_ADDR", false, s);
  }

  lemma ClockWhole(t: string, b: string)
    requires IsClockTime(t)
    requires b == [] || !IsWord(b[0])
    ensures Clocks(false, t + b) == "TIMESTAMP" + Clocks(true, b)
  {
    var s := t + b;
    assert forall i :: 0 <= i < 8 ==> s[i] == t[i];
    assert b != [] ==> s[8] == b[0];
    assert IsClockAt(s);
    assert s[8..] == b;
  }

  lemma PidWhole(afterWord: bool, d: string, b: string)
    requires AllDigits(d)
    requires b == [] || !IsDigit(b[0])
    ensures Pids(afterWord, PidLabel + d + b) == "PID: XXX" + Pids(true, b)
  {
    var s := PidLabel + d + b;
    assert s[..5] == PidLabel;
    assert s[5..] == d + b;
    DigitRunAppend(d, b);
    assert PidMatch(s) == 5 + |d|;
    assert s[5 + |d|..] == b;
    assert s[4 + |d|] == d[|d| - 1];
  }

  /** The address pass turns an address between separators into `IP_ADDR`, whatever its digits. */
  lemma AddressPass(a: string, x: string, b: string)
    requires IsIpv4Address(x)
    requires a == [] || (!IsWord(a[|a| - 1]) && a[|a| - 1] != '.')
    requires b == [] || !IsWord(b[0])
    ensures Addresses(false, a + x + b) == Addresses(false, a) + "IP_ADDR" + Addresses(true, b)
  {
    ConcatAssoc(a, x, b);
    if a != [] {
      AddressContained(a, x + b);
    }
    SplitWith(AddressAt, "IP_ADDR", false, a, x + b);
    AddressWhole(x, b);
    ConcatAssoc(Addresses(false, a), "IP_ADDR", Addresses(true, b));
  }

  /** The address pass copies a part that holds no '.' and is followed by a separator. */
  lemma AddressPassCopies(a: string, m: string, b: string)
    requires m != [] && forall j :: 0 <= j < |m| ==> m[j] != '.'
    requires a == [] || (!IsDigit(a[|a| - 1]) && a[|a| - 1] != '.')
    requires b == [] || (!IsDigit(b[0]) && b[0] != '.')
    ensures Addresses(false, a + m + b) == Addresses(false, a) + m + Addresses(AfterWord(false, m), b)
  {
    ConcatAssoc(a, m, b);
    if a != [] {
      AddressContained(a, m + b);
    }
    SplitWith(AddressAt, "IP_ADDR", false, a, m + b);
    NoAddressWithoutDot(m, b);
    CopyWith(AddressAt, "IP_ADDR", AfterWord(false, a), m, b);
    ConcatAssoc(Addresses(false, a), m, Addresses(AfterWord(false, m), b));
  }

  /** The first character is copied when no match starts there. */
  lemma KeepsFirst(matchAt: (bool, string) -> nat, rep: string, afterWord: bool, s: string)
    requires s != [] && matchAt(afterWord, s) == 0
    ensures var r := SubstituteWith(matchAt, rep, afterWord, s); r != [] && r[0] == s[0]
  {
    CopyStep(matchAt, rep, afterWord, s);
  }

  /** The address pass keeps the last character of a stretch ending in a character no address can end on. */
  lemma AddressesKeepLast(a: string)
    requires a != [] && !IsDigit(a[|a| - 1]) && a[|a| - 1] != '.'
    ensures var r := Addresses(false, a); r != [] && r[|r| - 1] == a[|a| - 1]
  {
    AddressContained(a, []);
    KeepsLastWith(AddressAt, "IP_ADDR", false, a);
  }

  /** The clock pass keeps the last character of a stretch ending in a character no clock time can end on. */
  lemma ClocksKeepLast(a: string)
    requires a != [] && !IsDigit(a[|a| - 1]) && a[|a| - 1] != ':'
    ensures var r := Clocks(false, a); r != [] && r[|r| - 1] == a[|a| - 1]
  {
    ClockContained(a, []);
    KeepsLastWith(ClockAt, "TIMESTAMP", false, a);
  }

  lemma ClockTimeHasNoDot(t: string)
    requires IsClockTime(t)
    ensures forall j :: 0 <= j < |t| ==> t[j] != '.'
    ensures forall j :: 1 <= j < |t| && t[j] == ':' ==> IsDigit(t[j - 1])
  {
  }

  /** The clock pass turns a clock time that the address pass left alone into `TIMESTAMP`. */
  lemma ClockPass(a: string, t: string, b: string)
    requires IsClockTime(t)
    requires a == [] || IsSeparator(a[|a| - 1])
    requires b == [] || IsSeparator(b[0])
    ensures Clocks(false, Addresses(false, a + t + b))
         == Clocks(false, Addresses(false, a)) + "TIMESTAMP" + Clocks(true, Addresses(true, b))
  {
    var x, y := Addresses(false, a), Addresses(true, b);
    assert Addresses(false, a + t + b) == x + t + y by {
      ClockTimeHasNoDot(t);
      AddressPassCopies(a, t, b);
      assert AfterWord(false, t);
    }
    assert ContainedIn(ClockAt, x, t + y) && !AfterWord(false, x) by {
      if a != [] {
        AddressesKeepLast(a);
        ClockContained(x, t + y);
      } else {
        assert x == [];
      }
    }
    assert y == [] || !IsWord(y[0]) by {
      if b != [] {
        KeepsFirst(AddressAt, "IP_ADDR", true, b);
      } else {
        assert y == [];
      }
    }
    ConcatAssoc(x, t, y);
    SplitWith(ClockAt, "TIMESTAMP", false, x, t + y);
    ClockWhole(t, y);
    ConcatAssoc(Clocks(false, x), "TIMESTAMP", Clocks(true, y));
  }

  /** Messages that differ only in an IPv4 address between separators get the same key. */
  lemma AddressInvariance(a: string, x: string, y: string, b: string)
    requires IsIpv4Address(x) && IsIpv4Address(y)
    requires a == [] || (!IsWord(a[|a| - 1]) && a[|a| - 1] != '.')
    requires b == [] || !IsWord(b[0])
    ensures Normalize(a + x + b) == Normalize(a + y + b)
  {
    AddressPass(a, x, b);
    AddressPass(a, y, b);
  }

  /** Messages that differ only in a clock time between separators get the same key. */
  lemma ClockInvariance(a: string, t: string, t': string, b: string)
    requires IsClockTime(t) && IsClockTime(t')
    requires a == [] || IsSeparator(a[|a| - 1])
    requires b == [] || IsSeparator(b[0])
    ensures Normalize(a + t + b) == Normalize(a + t' + b)
  {
    ClockPass(a, t, b);
    ClockPass(a, t', b);
  }

  lemma PidFieldFacts(d: string)
    requires AllDigits(d)
    ensures var m := PidLabel + d;
      && (forall j :: 0 <= j < |m| ==> m[j] != '.')
      && (forall j :: 1 <= j < |m| && m[j] == ':' ==> !IsDigit(m[j - 1]))
      && IsDigit(m[|m| - 1])
  {
    var m := PidLabel + d;
    assert forall j :: 5 <= j < |m| ==> m[j] == d[j - 5];
  }

  /** The clock pass copies a part in which no ':' follows a digit, between non-digits other than ':'. */
  lemma ClockPassCopies(x: string, m: string, y: string)
    requires m != [] && forall j :: 1 <= j < |m| && m[j] == ':' ==> !IsDigit(m[j - 1])
    requires x == [] || (!IsDigit(x[|x| - 1]) && x[|x| - 1] != ':')
    requires y == [] || (!IsDigit(y[0]) && y[0] != ':')
    ensures Clocks(false, x + m + y) == Clocks(false, x) + m + Clocks(AfterWord(false, m), y)
  {
    ConcatAssoc(x, m, y);
    if x != [] {
      ClockContained(x, m + y);
    }
    SplitWith(ClockAt, "TIMESTAMP", false, x, m + y);
    NoClockWithoutColon(m, y);
    CopyWith(ClockAt, "TIMESTAMP", AfterWord(false, x), m, y);
    ConcatAssoc(Clocks(false, x), m, Clocks(AfterWord(false, m), y));
  }

  /**
   * A text that cannot continue a `PID: ` label begun just before it: it
   * starts with none of 'D', ':', ' ' or a digit, nor with "ID".
   */
  predicate BreaksPidLabel(w: string)
  {
    && w != [] && !IsDigit(w[0]) && w[0] != 'D' && w[0] != ':' && w[0] != ' '
    && (w[0] == 'I' && |w| > 1 ==> w[1] != 'D')
  }

  /** A PID match that starts in `u` is not changed by a text that cannot continue the label. */
  lemma PidMatchBefore(u: string, w: string)
    requires u != [] && BreaksPidLabel(w)
    ensures PidMatch(u + w) == PidMatch(u)
  {
    var s := u + w;
    if |u| >= 5 {
      assert s[..5] == u[..5];
      assert s[5..] == u[5..] + w;
      DigitRunAppend(u[5..], w);
    } else if |s| >= 5 {
      assert s[|u|] == w[0];
      assert |u| == 1 && w[0] == 'I' ==> s[2] == w[1];
      assert s[..5] != PidLabel by {
        if |u| == 1 {
          assert PidLabel[1] == 'I' && PidLabel[2] == 'D';
        } else {
          assert PidLabel[|u|] in {'D', ':', ' '};
        }
      }
    }
  }

  /** The PID pass splits at any point followed by a text that cannot continue a `PID: ` label. */
  lemma {:induction false} PidsSplit(afterWord: bool, c: string, w: string)
    requires BreaksPidLabel(w)
    ensures Pids(afterWord, c + w) == Pids(afterWord, c) + Pids(AfterWord(afterWord, c), w)
    decreases |c|, 1
  {
    if c == [] {
      assert c + w == w;
    } else if PidMatch(c) > 0 {
      PidsSplitAtMatch(afterWord, c, w);
    } else {
      PidsSplitAtCopy(afterWord, c, w);
    }
  }

  lemma {:induction false} PidsSplitAtMatch(afterWord: bool, c: string, w: string)
    requires BreaksPidLabel(w) && PidMatch(c) > 0
    ensures Pids(afterWord, c + w) == Pids(afterWord, c) + Pids(AfterWord(afterWord, c), w)
    decreases |c|, 0
  {
    var n := PidMatch(c);
    var r, aw := c[n..], IsWord(c[n - 1]);
    assert AfterWord(aw, r) == AfterWord(afterWord, c) by {
      if r != [] {
        assert r[|r| - 1] == c[|c| - 1];
      }
    }
    PidsSplit(aw, r, w);
    PidMatchBefore(c, w);
    SplitAtMatch(PidAt, "PID: XXX", afterWord, c, w);
  }

  lemma {:induction false} PidsSplitAtCopy(afterWord: bool, c: string, w: string)
    requires BreaksPidLabel(w) && c != [] && PidMatch(c) == 0
    ensures Pids(afterWord, c + w) == Pids(afterWord, c) + Pids(AfterWord(afterWord, c), w)
    decreases |c|, 0
  {
    var r, aw := c[1..], IsWord(c[0]);
    assert AfterWord(aw, r) == AfterWord(afterWord, c) by {
      if r != [] {
        assert r[|r| - 1] == c[|c| - 1];
      }
    }
    PidsSplit(aw, r, w);
    PidMatchBefore(c, w);
    SplitAtCopy(PidAt, "PID: XXX", afterWord, c, w);
  }

  /** No PID match starts in `s` when no 'P' in it is followed by 'I'. */
  lemma {:induction false} NoPidWithoutPI(s: string, v: string)
    requires forall j :: 0 <= j < |s| - 1 ==> !(s[j] == 'P' && s[j + 1] == 'I')
    requires v == [] || v[0] != 'I'
    ensures SilentOn(PidAt, s, v)
    decreases |s|
  {
    if s != [] {
      var t := s + v;
      if |t| >= 5 {
        assert t[0] == s[0] && t[1] == if |s| > 1 then s[1] else v[0];
        assert PidLabel[0] == 'P' && PidLabel[1] == 'I';
      }
      NoPidWithoutPI(s[1..], v);
    }
  }

  /** The PID pass copies a part in which no 'P' is followed by 'I', and that cannot continue a label. */
  lemma PidPassCopies(c: string, p: string, e: string)
    requires |p| > 1 && BreaksPidLabel(p)
    requires forall j :: 0 <= j < |p| - 1 ==> !(p[j] == 'P' && p[j + 1] == 'I')
    requires e == [] || e[0] != 'I'
    ensures Pids(false, c + p + e) == Pids(false, c) + p + Pids(AfterWord(false, p), e)
  {
    assert (p + e)[..2] == p[..2];
    ConcatAssoc(c, p, e);
    PidsSplit(false, c, p + e);
    NoPidWithoutPI(p, e);
    CopyWith(PidAt, "PID: XXX", AfterWord(false, c), p, e);
    ConcatAssoc(Pids(false, c), p, Pids(AfterWord(false, p), e));
  }

  /** The PID pass turns `PID: <digits>` into `PID: XXX`, whatever the digits and whatever precedes them. */
  lemma PidPassReplaces(c: string, d: string, e: string)
    requires AllDigits(d)
    requires e == [] || !IsDigit(e[0])
    ensures Pids(false, c + (PidLabel + d) + e) == Pids(false, c) + "PID: XXX" + Pids(true, e)
  {
    var m := PidLabel + d;
    ConcatAssoc(c, m, e);
    assert (m + e)[0] == 'P';
    PidsSplit(false, c, m + e);
    PidWhole(AfterWord(false, c), d, e);
    ConcatAssoc(Pids(false, c), "PID: XXX", Pids(true, e));
  }

  /** The first two passes keep the last character of a stretch that ends in a separator. */
  lemma LeftEdge(a: string)
    requires a == [] || IsSeparator(a[|a| - 1])
    ensures var x := Addresses(false, a);
      && (a == [] ==> x == [] && Clocks(false, x) == [])
      && (a != [] ==> x != [] && x[|x| - 1] == a[|a| - 1])
      && (a != [] ==> var c := Clocks(false, x); c != [] && c[|c| - 1] == a[|a| - 1])
  {
    if a != [] {
      AddressesKeepLast(a);
      ClocksKeepLast(Addresses(false, a));
    }
  }

  /** After a word character, the first two passes keep the first character of a stretch that starts with a separator. */
  lemma RightEdge(b: string)
    requires b == [] || IsSeparator(b[0])
    ensures var y := Addresses(true, b);
      && (b == [] ==> y == [] && Clocks(true, y) == [])
      && (b != [] ==> y != [] && y[0] == b[0])
      && (b != [] ==> var e := Clocks(true, y); e != [] && e[0] == b[0])
  {
    if b != [] {
      KeepsFirst(AddressAt, "IP_ADDR", true, b);
      KeepsFirst(ClockAt, "TIMESTAMP", true, Addresses(true, b));
    }
  }

  /** The first two passes leave a `PID: <digits>` field between separators as it is. */
  lemma PidFieldSurvives(a: string, d: string, b: string)
    requires AllDigits(d)
    requires a == [] || IsSeparator(a[|a| - 1])
    requires b == [] || IsSeparator(b[0])
    ensures Clocks(false, Addresses(false, a + PidLabel + d + b))
         == Clocks(false, Addresses(false, a)) + (PidLabel + d) + Clocks(true, Addresses(true, b))
  {
    var m := PidLabel + d;
    assert Addresses(false, a + PidLabel + d + b) == Addresses(false, a) + m + Addresses(true, b) by {
      PidFieldFacts(d);
      ConcatAssoc(a, PidLabel, d);
      AddressPassCopies(a, m, b);
    }
    assert AfterWord(false, m) == true by {
      PidFieldFacts(d);
    }
    LeftEdge(a);
    RightEdge(b);
    PidFieldFacts(d);
    ClockPassCopies(Addresses(false, a), m, Addresses(true, b));
  }

  /** All three passes on a message holding a `PID: <digits>` field between separators. */
  lemma PidPass(a: string, d: string, b: string)
    requires AllDigits(d)
    requires a == [] || IsSeparator(a[|a| - 1])
    requires b == [] || IsSeparator(b[0])
    ensures Pids(false, Clocks(false, Addresses(false, a + PidLabel + d + b)))
         == Pids(false, Clocks(false, Addresses(false, a))) + "PID: XXX" + Pids(true, Clocks(true, Addresses(true, b)))
  {
    var x, y := Clocks(false, Addresses(false, a)), Clocks(true, Addresses(true, b));
    PidFieldSurvives(a, d, b);
    assert y == [] || !IsDigit(y[0]) by {
      RightEdge(b);
    }
    PidPassReplaces(x, d, y);
  }

  /** The label split after its 'P': the rest of the field holds no '.', no ':' after a digit, and ends on a digit. */
  lemma PidTailFacts(d: string)
    requires AllDigits(d)
    ensures var m := "ID: " + d;
      && (forall j :: 0 <= j < |m| ==> m[j] != '.')
      && (forall j :: 1 <= j < |m| && m[j] == ':' ==> !IsDigit(m[j - 1]))
      && AfterWord(false, m)
  {
    var m := "ID: " + d;
    assert forall j :: 4 <= j < |m| ==> m[j] == d[j - 4];
  }

  lemma PidLabelSplit(a: string, d: string, b: string)
    ensures a + PidLabel + d + b == (a + "P") + ("ID: " + d) + b
  {
    assert PidLabel == "P" + "ID: ";
  }

  lemma PidLabelJoin(c: string, d: string, e: string)
    requires c != [] && c[|c| - 1] == 'P'
    ensures c + ("ID: " + d) + e == c[..|c| - 1] + (PidLabel + d) + e
  {
    assert c == c[..|c| - 1] + "P";
    assert PidLabel == "P" + "ID: ";
  }

  /**
   * The first two passes copy the rest of a `PID: <digits>` field after its
   * 'P', whatever precedes the 'P'.
   */
  lemma PidTailSurvives(u: string, d: string, b: string)
    requires AllDigits(d)
    requires u != [] && u[|u| - 1] == 'P'
    requires b == [] || (!IsDigit(b[0]) && b[0] != '.' && b[0] != ':')
    ensures var c, e := Clocks(false, Addresses(false, u)), Clocks(true, Addresses(true, b));
      && c != [] && c[|c| - 1] == 'P'
      && (e == [] || !IsDigit(e[0]))
      && Clocks(false, Addresses(false, u + ("ID: " + d) + b)) == c + ("ID: " + d) + e
  {
    var m := "ID: " + d;
    PidTailFacts(d);
    var x, y := Addresses(false, u), Addresses(true, b);
    assert Addresses(false, u + m + b) == x + m + y && x != [] && x[|x| - 1] == 'P' by {
      AddressPassCopies(u, m, b);
      AddressesKeepLast(u);
    }
    assert y == [] || y[0] == b[0] by {
      if b != [] {
        KeepsFirst(AddressAt, "IP_ADDR", true, b);
      }
    }
    var e := Clocks(true, y);
    assert e == [] || e[0] == b[0] by {
      if y != [] {
        KeepsFirst(ClockAt, "TIMESTAMP", true, y);
      }
    }
    ClockPassCopies(x, m, y);
    ClocksKeepLast(x);
  }

  /**
   * All three passes on a `PID: <digits>` field after any text: the field
   * becomes `PID: XXX`, and what surrounds it does not depend on the digits.
   * The 'P' of the label ends every address or clock match of the prefix.
   */
  lemma PidPassAnywhere(a: string, d: string, b: string)
    requires AllDigits(d)
    requires b == [] || (!IsDigit(b[0]) && b[0] != '.' && b[0] != ':')
    ensures var c := Clocks(false, Addresses(false, a + "P"));
      && c != [] && c[|c| - 1] == 'P'
      && Pids(false, Clocks(false, Addresses(false, a + PidLabel + d + b)))
         == Pids(false, c[..|c| - 1]) + "PID: XXX" + Pids(true, Clocks(true, Addresses(true, b)))
  {
    var c, e := Clocks(false, Addresses(false, a + "P")), Clocks(true, Addresses(true, b));
    PidLabelSplit(a, d, b);
    PidTailSurvives(a + "P", d, b);
    PidLabelJoin(c, d, e);
    PidPassReplaces(c[..|c| - 1], d, e);
  }

  /**
   * Messages that differ only in the digits of a `PID: <digits>` field get
   * the same key, whatever precedes the field, when the text after it does
   * not continue the digits or form an address or clock time with them.
   */
  lemma PidInvariance(a: string, d: string, d': string, b: string)
    requires AllDigits(d) && AllDigits(d')
    requires b == [] || (!IsDigit(b[0]) && b[0] != '.' && b[0] != ':')
    ensures Normalize(a + PidLabel + d + b) == Normalize(a + PidLabel + d' + b)
  {
    PidPassAnywhere(a, d, b);
    PidPassAnywhere(a, d', b);
  }

  lemma PlaceholdersDigitFree()
    ensures forall j :: 0 <= j < |"IP_ADDR"| ==> !IsDigit("IP_ADDR"[j])
    ensures forall j :: 0 <= j < |"TIMESTAMP"| ==> !IsDigit("TIMESTAMP"[j])
  {}

  /** A substitution copies a text in which no match starts. */
  lemma SilentCopies(matchAt: (bool, string) -> nat, rep: string, afterWord: bool, s: string)
    requires SilentOn(matchAt, s, [])
    ensures SubstituteWith(matchAt, rep, afterWord, s) == s
  {
    CopyWith(matchAt, rep, afterWord, s, []);
    assert s + [] == s;
  }

  /** The three passes turn a message that is one IPv4 address into `IP_ADDR`. */
  lemma AddressPasses(x: string)
    requires IsIpv4Address(x)
    ensures Pids(false, Clocks(false, Addresses(false, x))) == "IP_ADDR"
  {
    var p := "IP_ADDR";
    assert Addresses(false, x) == p by {
      assert x + [] == x;
      AddressWhole(x, []);
      assert p + [] == p;
    }
    PlaceholdersDigitFree();
    assert Clocks(false, p) == p by {
      DigitFreeIsSilent(ClockAt, p);
      SilentCopies(ClockAt, "TIMESTAMP", false, p);
    }
    DigitFreeIsSilent(PidAt, p);
    SilentCopies(PidAt, "PID: XXX", false, p);
  }

  /** A message that is one IPv4 address has the key `ip_addr`. */
  lemma AddressKey(x: string)
    requires IsIpv4Address(x)
    ensures Normalize(x) == "ip_addr"
  {
    AddressPasses(x);
    AddressPlaceholderLowered();
  }

  /** The three passes turn a message that is one clock time into `TIMESTAMP`. */
  lemma ClockPasses(t: string)
    requires IsClockTime(t)
    ensures Pids(false, Clocks(false, Addresses(false, t))) == "TIMESTAMP"
  {
    var p := "TIMESTAMP";
    assert Addresses(false, t) == t by {
      ClockTimeHasNoDot(t);
      NoAddressWithoutDot(t, []);
      SilentCopies(AddressAt, "IP_ADDR", false, t);
    }
    assert Clocks(false, t) == p by {
      assert t + [] == t;
      ClockWhole(t, []);
      assert p + [] == p;
    }
    PlaceholdersDigitFree();
    DigitFreeIsSilent(PidAt, p);
    SilentCopies(PidAt, "PID: XXX", false, p);
  }

  /** A message that is one clock time has the key `timestamp`. */
  lemma ClockKey(t: string)
    requires IsClockTime(t)
    ensures Normalize(t) == "timestamp"
  {
    ClockPasses(t);
    ClockPlaceholderLowered();
  }

  /** The three passes turn a message that is one `PID: <digits>` field into `PID: XXX`. */
  lemma PidFieldPasses(d: string)
    requires AllDigits(d)
    ensures Pids(false, Clocks(false, Addresses(false, PidLabel + d))) == "PID: XXX"
  {
    var m := PidLabel + d;
    PidFieldFacts(d);
    assert Addresses(false, m) == m by {
      NoAddressWithoutDot(m, []);
      SilentCopies(AddressAt, "IP_ADDR", false, m);
    }
    assert Clocks(false, m) == m by {
      NoClockWithoutColon(m, []);
      SilentCopies(ClockAt, "TIMESTAMP", false, m);
    }
    assert m + [] == m;
    PidWhole(false, d, []);
  }

  /** A message that is one `PID: <digits>` field has the key `pid: xxx`. */
  lemma PidKey(d: string)
    requires AllDigits(d)
    ensures Normalize(PidLabel + d) == "pid: xxx"
  {
    PidFieldPasses(d);
    PidPlaceholderLowered();
  }

  // ---------------------------------------------------------------------
  // Each varying part inside a message becomes its lower-cased placeholder
  // ---------------------------------------------------------------------

  /**
   * A placeholder that the later passes copy: two or more characters, the
   * last a word character, no digit and no ':', no 'P' followed by 'I', and
   * it cannot continue a `PID: ` label.
   */
  predicate PassesThrough(p: string)
  {
    && |p| > 1 && IsWord(p[|p| - 1]) && BreaksPidLabel(p)
    && (forall j :: 0 <= j < |p| ==> !IsDigit(p[j]) && p[j] != ':')
    && (forall j :: 0 <= j < |p| - 1 ==> !(p[j] == 'P' && p[j + 1] == 'I'))
  }

  lemma PlaceholdersPassThrough()
    ensures PassesThrough("IP_ADDR") && PassesThrough("TIMESTAMP")
  {}

  /** A substitution does not depend on the context when the first attempt does not. */
  lemma ContextFree(matchAt: (bool, string) -> nat, rep: string, s: string)
    requires s == [] || matchAt(true, s) == matchAt(false, s)
    ensures SubstituteWith(matchAt, rep, true, s) == SubstituteWith(matchAt, rep, false, s)
  {}

  /** After a placeholder, the passes treat a stretch that does not start with a digit as a message of its own. */
  lemma RightContext(b: string)
    requires b == [] || !IsDigit(b[0])
    ensures Pids(true, Clocks(true, Addresses(true, b))) == Pids(false, Clocks(false, Addresses(false, b)))
  {
    ContextFree(AddressAt, "IP_ADDR", b);
    var y := Addresses(false, b);
    if b != [] {
      KeepsFirst(AddressAt, "IP_ADDR", false, b);
      assert !IsDigit(y[0]);
    }
    ContextFree(ClockAt, "TIMESTAMP", y);
    ContextFree(PidAt, "PID: XXX", Clocks(false, y));
  }

  /** The key of a message whose passes leave the passes of `a`, then `p`, then the passes of `b`. */
  lemma KeyAround(m: string, a: string, p: string, b: string)
    requires b == [] || !IsDigit(b[0])
    requires Pids(false, Clocks(false, Addresses(false, m)))
          == Pids(false, Clocks(false, Addresses(false, a))) + p + Pids(true, Clocks(true, Addresses(true, b)))
    ensures Normalize(m) == Normalize(a) + Lower(p) + Normalize(b)
  {
    var x, y := Pids(false, Clocks(false, Addresses(false, a))), Pids(false, Clocks(false, Addresses(false, b)));
    RightContext(b);
    LowerAppend(x + p, y);
    LowerAppend(x, p);
  }

  /**
   * All three passes turn an IPv4 address that follows a separator into
   * `IP_ADDR`, and nothing else changes; the address may be followed by any
   * non-word character but ':', '.' included.
   */
  lemma AddressPassesAround(a: string, x: string, b: string)
    requires IsIpv4Address(x)
    requires a == [] || IsSeparator(a[|a| - 1])
    requires b == [] || (!IsWord(b[0]) && b[0] != ':')
    ensures Pids(false, Clocks(false, Addresses(false, a + x + b)))
         == Pids(false, Clocks(false, Addresses(false, a))) + "IP_ADDR" + Pids(true, Clocks(true, Addresses(true, b)))
  {
    var p := "IP_ADDR";
    var a1, b1 := Addresses(false, a), Addresses(true, b);
    AddressPass(a, x, b);
    LeftEdge(a);
    if b != [] {
      KeepsFirst(AddressAt, "IP_ADDR", true, b);
      KeepsFirst(ClockAt, "TIMESTAMP", true, b1);
    }
    PlaceholdersPassThrough();
    assert Clocks(false, a1 + p + b1) == Clocks(false, a1) + p + Clocks(true, b1) by {
      ClockPassCopies(a1, p, b1);
    }
    PidPassCopies(Clocks(false, a1), p, Clocks(true, b1));
  }

  /** All three passes turn a clock time between separators into `TIMESTAMP`, and nothing else changes. */
  lemma ClockPassesAround(a: string, t: string, b: string)
    requires IsClockTime(t)
    requires a == [] || IsSeparator(a[|a| - 1])
    requires b == [] || IsSeparator(b[0])
    ensures Pids(false, Clocks(false, Addresses(false, a + t + b)))
         == Pids(false, Clocks(false, Addresses(false, a))) + "TIMESTAMP" + Pids(true, Clocks(true, Addresses(true, b)))
  {
    ClockPass(a, t, b);
    RightEdge(b);
    PlaceholdersPassThrough();
    PidPassCopies(Clocks(false, Addresses(false, a)), "TIMESTAMP", Clocks(true, Addresses(true, b)));
  }

  /**
   * An IPv4 address after a separator, and followed by a non-word character
   * other than ':' (such as the '.' ending a sentence), becomes `ip_addr` in
   * the key, and the text around it is keyed on its own.
   */
  lemma AddressKeyInContext(a: string, x: string, b: string)
    requires IsIpv4Address(x)
    requires a == [] || IsSeparator(a[|a| - 1])
    requires b == [] || (!IsWord(b[0]) && b[0] != ':')
    ensures Normalize(a + x + b) == Normalize(a) + "ip_addr" + Normalize(b)
  {
    AddressPassesAround(a, x, b);
    KeyAround(a + x + b, a, "IP_ADDR", b);
    AddressPlaceholderLowered();
  }

  /** A clock time between separators becomes `timestamp` in the key, and the text around it is keyed on its own. */
  lemma ClockKeyInContext(a: string, t: string, b: string)
    requires IsClockTime(t)
    requires a == [] || IsSeparator(a[|a| - 1])
    requires b == [] || IsSeparator(b[0])
    ensures Normalize(a + t + b) == Normalize(a) + "timestamp" + Normalize(b)
  {
    ClockPassesAround(a, t, b);
    KeyAround(a + t + b, a, "TIMESTAMP", b);
    ClockPlaceholderLowered();
  }

  /** A `PID: <digits>` field between separators becomes `pid: xxx` in the key, and the text around it is keyed on its own. */
  lemma PidKeyInContext(a: string, d: string, b: string)
    requires AllDigits(d)
    requires a == [] || IsSeparator(a[|a| - 1])
    requires b == [] || IsSeparator(b[0])
    ensures Normalize(a + PidLabel + d + b) == Normalize(a) + "pid: xxx" + Normalize(b)
  {
    PidPass(a, d, b);
    KeyAround(a + PidLabel + d + b, a, "PID: XXX", b);
    PidPlaceholderLowered();
  }
}
