/** The text functions the cleaning queries apply to a column value:
    PostgreSQL TRIM with no characters given (it strips the space character
    ' ' from both ends, and nothing else) and LOWER (modelled on the ASCII
    letters A-Z only). */
module SqlText {

  /** A nullable column value: None is SQL NULL. */
  datatype Option<T> = None | Some(value: T)

  /** Every character of s is a space (true of the empty string). */
  predicate AllSpaces(s: string) {
    forall k :: 0 <= k < |s| ==> s[k] == ' '
  }

  /** s neither starts nor ends with a space. */
  predicate Trimmed(s: string) {
    s == [] || (s[0] != ' ' && s[|s| - 1] != ' ')
  }

  predicate IsUpper(c: char) {
    'A' <= c <= 'Z'
  }

  /** s holds no upper-case ASCII letter. */
  predicate NoUpper(s: string) {
    forall k :: 0 <= k < |s| ==> !IsUpper(s[k])
  }

  /** A value that TRIM and LOWER both leave alone. */
  predicate Canonical(s: string) {
    Trimmed(s) && NoUpper(s)
  }

  /** s with its leading spaces removed: a suffix of s, everything cut off
      was a space, and what is left does not start with a space. */
  function TrimLeading(s: string): (r: string)
    ensures |r| <= |s| && r == s[|s| - |r|..]
    ensures AllSpaces(s[..|s| - |r|])
    ensures r == [] || r[0] != ' '
  {
    if |s| > 0 && s[0] == ' ' then
      var r := TrimLeading(s[1..]);
      assert s[1..][|s| - 1 - |r|..] == s[|s| - |r|..];
      assert forall k :: 1 <= k < |s| - |r| ==> s[k] == s[1..][..|s| - 1 - |r|][k - 1];
      r
    else s
  }

  /** s with its trailing spaces removed: a prefix of s, everything cut off
      was a space, and what is left does not end with a space. */
  function TrimTrailing(s: string): (r: string)
    ensures |r| <= |s| && r == s[..|r|]
    ensures AllSpaces(s[|r|..])
    ensures r == [] || r[|r| - 1] != ' '
  {
    if |s| > 0 && s[|s| - 1] == ' ' then
      var r := TrimTrailing(s[..|s| - 1]);
      assert s[..|s| - 1][..|r|] == s[..|r|];
      assert forall k :: |r| <= k < |s| - 1 ==> s[k] == s[..|s| - 1][|r|..][k - |r|];
      r
    else s
  }

  /** PostgreSQL TRIM(s). */
  function Trim(s: string): (r: string)
    ensures |r| <= |s|
    ensures Trimmed(r)
  {
    TrimTrailing(TrimLeading(s))
  }

  /** PostgreSQL LOWER on one character, ASCII letters only. */
  function LowerChar(c: char): (d: char)
    ensures !IsUpper(d)
    ensures !IsUpper(c) ==> d == c
    ensures IsUpper(c) ==> 'a' <= d <= 'z' && d as int - 'a' as int == c as int - 'A' as int
  {
    if IsUpper(c) then (c as int - 'A' as int + 'a' as int) as char else c
  }

  /** PostgreSQL LOWER(s): same length, no upper-case letter left, and every
      character that was not an upper-case letter kept where it was. */
  function Lower(s: string): (r: string)
    ensures |r| == |s|
    ensures NoUpper(r)
    ensures forall k :: 0 <= k < |s| && !IsUpper(s[k]) ==> r[k] == s[k]
    ensures forall k :: 0 <= k < |s| && IsUpper(s[k]) ==>
      'a' <= r[k] <= 'z' && r[k] as int - 'a' as int == s[k] as int - 'A' as int
  {
    seq(|s|, k requires 0 <= k < |s| => LowerChar(s[k]))
  }

  /** LOWER(TRIM(s)), the form a categorical value is compared and stored in. */
  function Normalize(s: string): (r: string)
    ensures Canonical(r)
    ensures |r| <= |s|
  {
    LowerPreservesTrimmed(Trim(s));
    Lower(Trim(s))
  }

  // ---------------------------------------------------------------------
  // TRIM: the result is the unique space-free-at-both-ends middle of s.

  lemma {:induction false} TrimLeadingSkips(p: string, t: string)
    requires AllSpaces(p)
    requires t == [] || t[0] != ' '
    ensures TrimLeading(p + t) == t
  {
    if p != [] {
      var s := p + t;
      assert s[0] == ' ';
      assert s[1..] == p[1..] + t;
      TrimLeadingSkips(p[1..], t);
    }
  }

  lemma {:induction false} TrimTrailingSkips(t: string, q: string)
    requires AllSpaces(q)
    requires t == [] || t[|t| - 1] != ' '
    ensures TrimTrailing(t + q) == t
    decreases |q|
  {
    if q != [] {
      assert (t + q)[..|t + q| - 1] == t + q[..|q| - 1];
      TrimTrailingSkips(t, q[..|q| - 1]);
    }
  }

  /** Whatever spaces surround a trimmed middle m, TRIM gives back m. */
  lemma TrimUnique(p: string, m: string, q: string)
    requires AllSpaces(p) && AllSpaces(q) && Trimmed(m)
    ensures Trim(p + m + q) == m
  {
    if m == [] {
      assert p + m + q == p + q;
      assert AllSpaces(p + q);
      TrimLeadingSkips(p + q, []);
      assert p + q + [] == p + q;
    } else {
      assert p + m + q == p + (m + q);
      TrimLeadingSkips(p, m + q);
      TrimTrailingSkips(m, q);
    }
  }

  /** Helper: keeps the solver away from re-associating concatenations. */
  lemma Regroup(a: string, b: string, c: string)
    ensures a + (b + c) == a + b + c
  {
  }

  lemma TrimLeadingSplits(s: string) returns (p: string)
    ensures s == p + TrimLeading(s) && AllSpaces(p)
  {
    p := s[..|s| - |TrimLeading(s)|];
  }

  lemma TrimTrailingSplits(t: string) returns (q: string)
    ensures t == TrimTrailing(t) + q && AllSpaces(q)
  {
    q := t[|TrimTrailing(t)|..];
  }

  /** TRIM(s) is s with only spaces taken off its two ends: p and q are the
      spaces it removes. */
  lemma TrimSplits(s: string) returns (p: string, q: string)
    ensures s == p + Trim(s) + q
    ensures AllSpaces(p) && AllSpaces(q)
  {
    var t := TrimLeading(s);
    p := TrimLeadingSplits(s);
    q := TrimTrailingSplits(t);
    var r := Trim(s);
    assert t == r + q;
    Regroup(p, r, q);
  }

  /** TRIM gives the empty string exactly for space-only (or empty) values. */
  lemma TrimBlank(s: string)
    ensures Trim(s) == "" <==> AllSpaces(s)
  {
    if AllSpaces(s) {
      TrimUnique(s, "", "");
      assert s + "" + "" == s;
    }
    if Trim(s) == "" {
      var p, q := TrimSplits(s);
      assert s == p + q;
      forall k | 0 <= k < |s| ensures s[k] == ' ' {
        if k < |p| { assert s[k] == p[k]; } else { assert s[k] == q[k - |p|]; }
      }
    }
  }

  /** A value without leading or trailing spaces is its own TRIM. */
  lemma TrimOfTrimmed(s: string)
    requires Trimmed(s)
    ensures Trim(s) == s
  {
    TrimUnique("", s, "");
    assert "" + s + "" == s;
  }

  // ---------------------------------------------------------------------
  // LOWER

  /** LOWER keeps spaces where they were and adds none, so it keeps a
      trimmed value trimmed and a space-only value space-only. */
  lemma LowerPreservesTrimmed(s: string)
    ensures Trimmed(s) ==> Trimmed(Lower(s))
    ensures AllSpaces(s) <==> AllSpaces(Lower(s))
  {
    var r := Lower(s);
    forall k | 0 <= k < |s| ensures (r[k] == ' ') == (s[k] == ' ') {
      assert r[k] == LowerChar(s[k]);
    }
  }

  lemma LowerIdempotent(s: string)
    ensures Lower(Lower(s)) == Lower(s)
  {
  }

  // ---------------------------------------------------------------------
  // LOWER(TRIM(.))

  /** A canonical value normalizes to itself. */
  lemma NormalizeFixesCanonical(s: string)
    requires Canonical(s)
    ensures Normalize(s) == s
  {
    TrimOfTrimmed(s);
    assert Lower(s) == s;
  }

  /** LOWER(TRIM(LOWER(TRIM(s)))) == LOWER(TRIM(s)). */
  lemma NormalizeIdempotent(s: string)
    ensures Normalize(Normalize(s)) == Normalize(s)
  {
    NormalizeFixesCanonical(Normalize(s));
  }

  /** LOWER(TRIM(s)) is '' exactly when s is empty or all spaces. */
  lemma NormalizeBlank(s: string)
    ensures Normalize(s) == "" <==> AllSpaces(s)
  {
    TrimBlank(s);
  }

  /** TRIM("  KILL ") is "KILL". */
  lemma TrimKillExample()
    ensures Trim("  KILL ") == "KILL"
  {
    TrimUnique("  ", "KILL", " ");
    assert "  " + "KILL" + " " == "  KILL ";
  }

  /** LOWER("KILL") is "kill". */
  lemma LowerKillExample()
    ensures Lower("KILL") == "kill"
  {
    var r := Lower("KILL");
    assert r[0] == LowerChar('K') && r[1] == LowerChar('I');
    assert r[2] == LowerChar('L') && r[3] == LowerChar('L');
  }

  /** LOWER(TRIM("  KILL ")) is "kill". */
  lemma NormalizeKillExample(raw: string)
    requires raw == "  KILL "
    ensures Normalize(raw) == "kill"
  {
    TrimKillExample();
    LowerKillExample();
  }
}
