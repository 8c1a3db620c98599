/**
 * Export names for radio options (python/generate_form.py:184-194).
 *
 * A label becomes a PDF name made of ASCII letters, digits and `_`: runs of
 * other characters collapse to one `_`, outer `_` are trimmed, an empty result
 * becomes `Option`, and a name already used in the group gets the smallest
 * numeric suffix `_1`, `_2`, ... that is still free.
 */
module ExportNames {
  import opened Text

  predicate IsNameChar(c: char) { IsAsciiAlnum(c) || c == '_' }

  /** The shape every export name has: non-empty, `[A-Za-z0-9_]` only, no `_` at either end. */
  predicate WellFormedName(s: string) {
    |s| > 0 && (forall i :: 0 <= i < |s| ==> IsNameChar(s[i])) && s[0] != '_' && s[|s| - 1] != '_'
  }

  /** `str.strip()`: drop leading and trailing whitespace. */
  function StripSpace(s: string): (r: string)
    ensures |r| <= |s|
  {
    StripSpaceRight(s[SpaceRun(s)..])
  }

  function StripSpaceRight(s: string): (r: string)
    ensures |r| <= |s|
  {
    if s != [] && IsSpace(s[|s| - 1]) then StripSpaceRight(s[..|s| - 1]) else s
  }

  /** Length of the leading run of characters outside `[A-Za-z0-9]`. */
  function NonAlnumRun(s: string): (n: nat)
    ensures n <= |s|
    ensures forall i :: 0 <= i < n ==> !IsAsciiAlnum(s[i])
  {
    if s == [] || IsAsciiAlnum(s[0]) then 0 else 1 + NonAlnumRun(s[1..])
  }

  /** `re.sub(r"[^A-Za-z0-9]+", "_", s)`: every maximal run outside the class becomes one `_`. */
  function Collapse(s: string): (r: string)
    ensures forall i :: 0 <= i < |r| ==> IsNameChar(r[i])
    decreases |s|
  {
    if s == [] then []
    else if IsAsciiAlnum(s[0]) then [s[0]] + Collapse(s[1..])
    else "_" + Collapse(s[1 + NonAlnumRun(s[1..])..])
  }

  /** `s.strip("_")`. */
  function TrimUnderscores(s: string): (r: string)
    ensures |r| <= |s|
  {
    TrimUnderscoresRight(TrimUnderscoresLeft(s))
  }

  function TrimUnderscoresLeft(s: string): (r: string)
    ensures |r| <= |s|
  {
    if s != [] && s[0] == '_' then TrimUnderscoresLeft(s[1..]) else s
  }

  function TrimUnderscoresRight(s: string): (r: string)
    ensures |r| <= |s|
  {
    if s != [] && s[|s| - 1] == '_' then TrimUnderscoresRight(s[..|s| - 1]) else s
  }

  /** The name before de-duplication: `re.sub(...)` of the stripped label, `strip("_")`, or `Option`. */
  function SanitizedBase(value: string): string {
    var trimmed := TrimUnderscores(Collapse(StripSpace(value)));
    if trimmed == [] then "Option" else trimmed
  }

  /** The k-th name tried for a base: the base itself, then `base_1`, `base_2`, ... */
  function Candidate(base: string, k: nat): string {
    if k == 0 then base else base + "_" + NatToString(k)
  }

  /** The names tried before the k-th. */
  function Tried(base: string, k: nat): set<string> {
    set j | 0 <= j < k :: Candidate(base, j)
  }

  /** The first candidate from the k-th on that is not in `used`. */
  function FirstFree(base: string, used: set<string>, k: nat): string
    decreases used - Tried(base, k)
  {
    var c := Candidate(base, k);
    if c !in used then c
    else
      TriedGrows(base, k);
      FirstFree(base, used, k + 1)
  }

  /** The export name `_sanitize_radio_export(value, used)` returns. */
  function ExportName(value: string, used: set<string>): string {
    FirstFree(SanitizedBase(value), used, 0)
  }

  /** The object that owns the caller's `used` set; `Sanitize` is `_sanitize_radio_export`. */
  class ExportNamePool {
    var used: set<string>

    constructor ()
      ensures used == {}
    {
      used := {};
    }

    method Sanitize(value: string) returns (name: string)
      modifies this
      ensures name == ExportName(value, old(used))
      ensures used == old(used) + {name}
    {
      var sanitized := SanitizedBase(value);
      var candidate := sanitized;
      var index := 1;
      while candidate in used
        invariant index >= 1 && candidate == Candidate(sanitized, index - 1)
        invariant used == old(used)
        invariant FirstFree(sanitized, used, index - 1) == ExportName(value, used)
        decreases used - Tried(sanitized, index - 1)
      {
        TriedGrows(sanitized, index - 1);
        candidate := sanitized + "_" + NatToString(index);
        index := index + 1;
      }
      used := used + {candidate};
      name := candidate;
    }
  }

  lemma CandidateInjective(base: string, i: nat, j: nat)
    requires Candidate(base, i) == Candidate(base, j)
    ensures i == j
  {
    if i != 0 && j != 0 {
      var a, b := Candidate(base, i), Candidate(base, j);
      assert a[|base| + 1..] == NatToString(i);
      assert b[|base| + 1..] == NatToString(j);
      NatToStringInjective(i, j);
    }
  }

  /** Each step tries a name not tried before. */
  lemma TriedGrows(base: string, k: nat)
    ensures Tried(base, k + 1) == Tried(base, k) + {Candidate(base, k)}
    ensures Candidate(base, k) !in Tried(base, k)
  {
    if Candidate(base, k) in Tried(base, k) {
      var j :| 0 <= j < k && Candidate(base, j) == Candidate(base, k);
      CandidateInjective(base, j, k);
    }
  }

  /** The search returns the first untaken candidate from the k-th on. */
  lemma {:induction false} FirstFreeIsLeast(base: string, used: set<string>, k: nat)
    ensures exists n :: (k <= n && FirstFree(base, used, k) == Candidate(base, n)
      && Candidate(base, n) !in used
      && forall j :: k <= j < n ==> Candidate(base, j) in used)
    decreases used - Tried(base, k)
  {
    if Candidate(base, k) in used {
      TriedGrows(base, k);
      FirstFreeIsLeast(base, used, k + 1);
      var n :| k + 1 <= n && FirstFree(base, used, k + 1) == Candidate(base, n)
        && Candidate(base, n) !in used
        && forall j :: k + 1 <= j < n ==> Candidate(base, j) in used;
      assert forall j :: k <= j < n ==> Candidate(base, j) in used;
    } else {
      assert FirstFree(base, used, k) == Candidate(base, k);
    }
  }

  /**
   * The returned name was not in use, and it is the sanitised base when that
   * is free, otherwise `base_k` for the smallest k >= 1 not in use.
   */
  lemma ExportNameIsSmallestFree(value: string, used: set<string>)
    ensures ExportName(value, used) !in used
    ensures SanitizedBase(value) !in used ==> ExportName(value, used) == SanitizedBase(value)
    ensures SanitizedBase(value) in used ==>
      exists k :: 1 <= k && ExportName(value, used) == SanitizedBase(value) + "_" + NatToString(k)
        && forall j :: 1 <= j < k ==> SanitizedBase(value) + "_" + NatToString(j) in used
  {
    var base := SanitizedBase(value);
    FirstFreeIsLeast(base, used, 0);
    var n :| 0 <= n && ExportName(value, used) == Candidate(base, n)
      && Candidate(base, n) !in used
      && forall j :: 0 <= j < n ==> Candidate(base, j) in used;
    if base in used {
      assert n != 0;
      assert forall j :: 1 <= j < n ==> Candidate(base, j) == base + "_" + NatToString(j);
    }
  }

  lemma {:induction false} CollapseHasAlnum(s: string)
    requires exists i :: 0 <= i < |s| && IsAsciiAlnum(s[i])
    ensures exists i :: 0 <= i < |Collapse(s)| && IsAsciiAlnum(Collapse(s)[i])
    decreases |s|
  {
    if IsAsciiAlnum(s[0]) {
      assert Collapse(s)[0] == s[0];
    } else {
      var m := 1 + NonAlnumRun(s[1..]);
      var rest := s[m..];
      var i :| 0 <= i < |s| && IsAsciiAlnum(s[i]);
      assert i >= m;
      assert rest[i - m] == s[i];
      CollapseHasAlnum(rest);
      var j :| 0 <= j < |Collapse(rest)| && IsAsciiAlnum(Collapse(rest)[j]);
      assert Collapse(s) == "_" + Collapse(rest);
      assert Collapse(s)[j + 1] == Collapse(rest)[j];
    }
  }

  lemma {:induction false} CollapseNoAlnum(s: string)
    requires forall i :: 0 <= i < |s| ==> !IsAsciiAlnum(s[i])
    ensures forall i :: 0 <= i < |Collapse(s)| ==> Collapse(s)[i] == '_'
    decreases |s|
  {
    if s != [] {
      var m := 1 + NonAlnumRun(s[1..]);
      CollapseNoAlnum(s[m..]);
    }
  }

  lemma {:induction false} TrimLeftAllUnderscores(s: string)
    requires forall i :: 0 <= i < |s| ==> s[i] == '_'
    ensures TrimUnderscoresLeft(s) == []
    decreases |s|
  {
    if s != [] { TrimLeftAllUnderscores(s[1..]); }
  }

  lemma {:induction false} TrimLeftShape(s: string)
    ensures TrimUnderscoresLeft(s) == s[|s| - |TrimUnderscoresLeft(s)|..]
    ensures TrimUnderscoresLeft(s) != [] ==> TrimUnderscoresLeft(s)[0] != '_'
    decreases |s|
  {
    if s != [] && s[0] == '_' { TrimLeftShape(s[1..]); }
  }

  lemma {:induction false} TrimRightShape(s: string)
    ensures TrimUnderscoresRight(s) == s[..|TrimUnderscoresRight(s)|]
    ensures TrimUnderscoresRight(s) != [] ==> TrimUnderscoresRight(s)[|TrimUnderscoresRight(s)| - 1] != '_'
    decreases |s|
  {
    if s != [] && s[|s| - 1] == '_' { TrimRightShape(s[..|s| - 1]); }
  }

  /** Trimming a name-character string keeps it one, with no `_` at either end. */
  lemma TrimShape(s: string)
    requires forall i :: 0 <= i < |s| ==> IsNameChar(s[i])
    ensures var r := TrimUnderscores(s);
      (forall i :: 0 <= i < |r| ==> IsNameChar(r[i])) && (r != [] ==> r[0] != '_' && r[|r| - 1] != '_')
  {
    var l := TrimUnderscoresLeft(s);
    TrimLeftShape(s);
    TrimRightShape(l);
    var r := TrimUnderscoresRight(l);
    assert forall i :: 0 <= i < |r| ==> r[i] == s[|s| - |l| + i];
  }

  /** Labels with no ASCII letter or digit (CJK labels, for one) all get the base `Option`. */
  lemma NoAsciiLabelIsOption(value: string)
    requires forall i :: 0 <= i < |value| ==> !IsAsciiAlnum(value[i])
    ensures SanitizedBase(value) == "Option"
  {
    var stripped := StripSpace(value);
    assert forall i :: 0 <= i < |stripped| ==> !IsAsciiAlnum(stripped[i]) by {
      StripSpaceIsSlice(value);
    }
    CollapseNoAlnum(stripped);
    TrimLeftAllUnderscores(Collapse(stripped));
  }

  lemma {:induction false} StripSpaceRightIsPrefix(s: string)
    ensures StripSpaceRight(s) == s[..|StripSpaceRight(s)|]
    decreases |s|
  {
    if s != [] && IsSpace(s[|s| - 1]) { StripSpaceRightIsPrefix(s[..|s| - 1]); }
  }

  lemma StripSpaceIsSlice(s: string)
    ensures exists a, b :: 0 <= a <= b <= |s| && StripSpace(s) == s[a..b]
  {
    var t := s[SpaceRun(s)..];
    StripSpaceRightIsPrefix(t);
    assert StripSpace(s) == s[SpaceRun(s)..SpaceRun(s) + |StripSpaceRight(t)|];
  }

  /** Every base is a well-formed name. */
  lemma SanitizedBaseWellFormed(value: string)
    ensures WellFormedName(SanitizedBase(value))
  {
    TrimShape(Collapse(StripSpace(value)));
  }

  /** Every export name is a well-formed name: the suffix `_k` ends in a digit. */
  lemma ExportNameWellFormed(value: string, used: set<string>)
    ensures WellFormedName(ExportName(value, used))
  {
    var base := SanitizedBase(value);
    SanitizedBaseWellFormed(value);
    FirstFreeIsLeast(base, used, 0);
    var n :| 0 <= n && ExportName(value, used) == Candidate(base, n);
    if n != 0 {
      var r := Candidate(base, n);
      var digits := NatToString(n);
      assert r == base + "_" + digits;
      assert forall i :: 0 <= i < |r| ==> IsNameChar(r[i]) by {
        forall i | 0 <= i < |r| ensures IsNameChar(r[i]) {
          if i < |base| { assert r[i] == base[i]; }
          else if i > |base| { assert r[i] == digits[i - |base| - 1]; }
        }
      }
      assert r[|r| - 1] == digits[|digits| - 1];
    }
  }

  lemma CollapseAlnumCons(c: char, s: string)
    requires IsAsciiAlnum(c)
    ensures Collapse([c] + s) == [c] + Collapse(s)
  {
    assert ([c] + s)[1..] == s;
  }

  lemma CollapseOne(c: char)
    requires !IsAsciiAlnum(c)
    ensures Collapse([c]) == "_"
  {
    assert [c][1..] == [];
  }

  /** "Yes" followed by one punctuation character sanitises to "Yes". */
  lemma YesPunctuation(c: char)
    requires !IsAsciiAlnum(c) && !IsSpace(c) && c != '_'
    ensures SanitizedBase("Yes" + [c]) == "Yes"
  {
    var v := "Yes" + [c];
    assert SpaceRun(v) == 0 && v[0..] == v;
    assert StripSpace(v) == v;
    CollapseOne(c);
    CollapseAlnumCons('s', [c]);
    CollapseAlnumCons('e', "s" + [c]);
    assert v == ['Y'] + ("e" + ("s" + [c]));
    CollapseAlnumCons('Y', "e" + ("s" + [c]));
    assert Collapse(v) == "Yes_";
    assert TrimUnderscoresLeft("Yes_") == "Yes_";
    assert TrimUnderscoresRight("Yes_") == "Yes" by {
      assert "Yes_"[..3] == "Yes";
    }
  }

  /**
   * Two labels with the same base in one group get distinct names: the first
   * gets the base, the second `base_1` ("Yes!" then "Yes?" give Yes, Yes_1).
   */
  lemma SameBaseTwice(first: string, second: string)
    requires SanitizedBase(first) == SanitizedBase(second)
    ensures ExportName(first, {}) == SanitizedBase(first)
    ensures ExportName(second, {ExportName(first, {})}) == SanitizedBase(first) + "_1"
  {
    var base := SanitizedBase(first);
    assert |base + "_1"| != |base|;
    SecondTry(base, {base});
  }

  /** "Yes!" and "Yes?" share the base "Yes". */
  lemma YesBang()
    ensures SanitizedBase("Yes!") == "Yes"
  {
    assert !IsSpace('!');
    assert "Yes!" == "Yes" + ['!'];
    YesPunctuation('!');
  }

  lemma YesQuery()
    ensures SanitizedBase("Yes?") == "Yes"
  {
    assert !IsSpace('?');
    assert "Yes?" == "Yes" + ['?'];
    YesPunctuation('?');
  }

  /** When the base is taken and `base_1` is not, the search stops at `base_1`. */
  lemma SecondTry(base: string, used: set<string>)
    requires base in used && base + "_1" !in used
    ensures FirstFree(base, used, 0) == base + "_1"
  {
    assert NatToString(1) == "1";
    assert Candidate(base, 1) == base + "_1";
  }
}
