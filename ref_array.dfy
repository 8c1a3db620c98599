/**
 * The reference-array codec (python/generate_form.py:435-440): an AcroForm
 * `/Fields` or `/Kids` array is read as the list of its `N G R` tokens and
 * written back as `[t1 t2 ...]`.
 */
module RefArray {
  import opened Wrappers
  import opened Text

  /**
   * Length of a match of `\d+\s+\d+\s+R` at the start of `s`. Digits, whitespace
   * and `R` are disjoint classes, so the greedy runs never need to back off and
   * the match, when there is one, is made of the maximal runs.
   */
  function RefMatch(s: string): (r: Option<nat>)
    ensures r.Some? ==> 0 < r.value <= |s|
  {
    var a := DigitsFrom(s, 0);
    var b := SpacesFrom(s, a);
    var c := DigitsFrom(s, b);
    var d := SpacesFrom(s, c);
    if a == 0 || b == a || c == b || d == c || d == |s| || s[d] != 'R' then None else Some(d + 1)
  }

  /** A reference token: the whole string is one match of the pattern. */
  predicate IsRef(t: string) { RefMatch(t) == Some(|t|) }

  /** Every token of `refs` is a reference token. */
  predicate AllRefs(refs: seq<string>) {
    refs == [] || (IsRef(refs[0]) && AllRefs(refs[1..]))
  }

  /** `_parse_ref_array`: `re.findall` of the pattern, scanning left to right. */
  function ParseRefArray(s: string): seq<string>
    decreases |s|
  {
    if s == [] then []
    else match RefMatch(s)
      case Some(n) => [s[..n]] + ParseRefArray(s[n..])
      case None => ParseRefArray(s[1..])
  }

  /** `' '.join(refs)` */
  function Join(refs: seq<string>): string {
    if refs == [] then "" else if |refs| == 1 then refs[0] else refs[0] + " " + Join(refs[1..])
  }

  /** `_format_ref_array` */
  function FormatRefArray(refs: seq<string>): string {
    if refs == [] then "[]" else "[" + Join(refs) + "]"
  }

  /** `f"{xref} 0 R"` */
  function RefText(xref: nat): string {
    NatToString(xref) + " 0 R"
  }

  /** `int(raw.split()[0])`: the object number of a reference; None where `int()` would raise. */
  function RefTarget(raw: string): Option<nat> {
    var start := SpacesFrom(raw, 0);
    var end := DigitsFrom(raw, start);
    DigitsFromAreDigits(raw, start);
    if end == start || (end < |raw| && !IsSpace(raw[end])) then None else Some(ParseNat(raw[start..end]))
  }

  /** A match depends only on the characters it covers. */
  lemma RefMatchAgree(s: string, t: string, n: nat)
    requires RefMatch(s) == Some(n) && n <= |t| && s[..n] == t[..n]
    ensures RefMatch(t) == Some(n)
  {
    var a := DigitsFrom(s, 0);
    DigitsFromAgree(s, t, 0, n);
    var b := SpacesFrom(s, a);
    SpacesFromAgree(s, t, a, n);
    var c := DigitsFrom(s, b);
    DigitsFromAgree(s, t, b, n);
    var d := SpacesFrom(s, c);
    SpacesFromAgree(s, t, c, n);
    assert t[d] == t[..n][d] == s[..n][d] == s[d];
  }

  /** A match covers only digits, whitespace and the final `R`. */
  lemma RefMatchChars(s: string)
    requires RefMatch(s).Some?
    ensures forall j :: 0 <= j < RefMatch(s).value ==> IsDigit(s[j]) || IsSpace(s[j]) || s[j] == 'R'
  {
    var a := DigitsFrom(s, 0);
    DigitsFromAreDigits(s, 0);
    SpacesFromAreSpaces(s, a);
    var b := SpacesFrom(s, a);
    DigitsFromAreDigits(s, b);
    var c := DigitsFrom(s, b);
    SpacesFromAreSpaces(s, c);
  }

  lemma RefMatchPrefix(s: string, n: nat)
    requires RefMatch(s) == Some(n)
    ensures IsRef(s[..n])
  {
    RefMatchAgree(s, s[..n], n);
  }

  /** What follows a reference token does not change its match. */
  lemma RefMatchExtend(t: string, rest: string)
    requires IsRef(t)
    ensures RefMatch(t + rest) == Some(|t|)
  {
    assert (t + rest)[..|t|] == t[..|t|];
    RefMatchAgree(t, t + rest, |t|);
  }

  /** Every token `ParseRefArray` returns is a reference token, in the order of the text. */
  lemma {:induction false} ParsedAreRefs(s: string)
    ensures AllRefs(ParseRefArray(s))
    decreases |s|
  {
    if s != [] {
      match RefMatch(s)
      case Some(n) =>
        RefMatchPrefix(s, n);
        ParsedAreRefs(s[n..]);
        var r := ParseRefArray(s[n..]);
        assert ([s[..n]] + r)[1..] == r;
      case None =>
        ParsedAreRefs(s[1..]);
    }
  }

  lemma ParseAfterRef(t: string, rest: string)
    requires IsRef(t)
    ensures ParseRefArray(t + rest) == [t] + ParseRefArray(rest)
  {
    RefMatchExtend(t, rest);
    assert (t + rest)[..|t|] == t && (t + rest)[|t|..] == rest;
  }

  /** A position that cannot start a number is skipped. */
  lemma ParseSkip(c: char, rest: string)
    requires !IsDigit(c)
    ensures ParseRefArray([c] + rest) == ParseRefArray(rest)
  {
    assert DigitsFrom([c] + rest, 0) == 0;
    assert ([c] + rest)[1..] == rest;
  }

  lemma ParseRefThenSpace(t: string, more: string)
    requires IsRef(t)
    ensures ParseRefArray(t + ([' '] + more)) == [t] + ParseRefArray(more)
  {
    ParseAfterRef(t, [' '] + more);
    ParseSkip(' ', more);
  }

  lemma JoinCons(refs: seq<string>, tail: string)
    requires |refs| > 1
    ensures Join(refs) + tail == refs[0] + ([' '] + (Join(refs[1..]) + tail))
  {
  }

  lemma ParseJoinedSingle(t: string, tail: string)
    requires IsRef(t)
    ensures ParseRefArray(Join([t]) + tail) == [t] + ParseRefArray(tail)
  {
    assert Join([t]) == t;
    ParseAfterRef(t, tail);
  }

  /** One step of the induction below: a leading token followed by a space. */
  lemma ParseJoinedStep(refs: seq<string>, tail: string)
    requires |refs| > 1 && IsRef(refs[0])
    requires ParseRefArray(Join(refs[1..]) + tail) == refs[1..] + ParseRefArray(tail)
    ensures ParseRefArray(Join(refs) + tail) == refs + ParseRefArray(tail)
  {
    var t, r := refs[0], refs[1..];
    var more := Join(r) + tail;
    JoinCons(refs, tail);
    ParseRefThenSpace(t, more);
    ConsAppend(refs, ParseRefArray(tail));
  }

  lemma ConsAppend<T>(xs: seq<T>, ys: seq<T>)
    requires xs != []
    ensures [xs[0]] + (xs[1..] + ys) == xs + ys
  {
  }

  lemma {:induction false} ParseJoined(refs: seq<string>, tail: string)
    requires AllRefs(refs)
    ensures ParseRefArray(Join(refs) + tail) == refs + ParseRefArray(tail)
    decreases |refs|
  {
    if refs == [] {
      assert Join(refs) + tail == tail;
    } else if |refs| == 1 {
      assert refs == [refs[0]];
      ParseJoinedSingle(refs[0], tail);
    } else {
      ParseJoined(refs[1..], tail);
      ParseJoinedStep(refs, tail);
    }
  }

  /** A closing `]` adds no token and takes none away: a match never covers it. */
  lemma {:induction false} ParseBeforeClose(s: string)
    ensures ParseRefArray(s + "]") == ParseRefArray(s)
    decreases |s|
  {
    var t := s + "]";
    if s == [] {
      assert t == [']'] + [];
      ParseSkip(']', []);
    } else {
      assert t[1..] == s[1..] + "]";
      match RefMatch(s)
      case Some(n) =>
        assert t[..n] == s[..n];
        RefMatchAgree(s, t, n);
        assert t[n..] == s[n..] + "]";
        ParseBeforeClose(s[n..]);
      case None =>
        CloseNoMatch(s);
        ParseBeforeClose(s[1..]);
    }
  }

  lemma CloseNoMatch(s: string)
    requires RefMatch(s).None?
    ensures RefMatch(s + "]").None?
  {
    var t := s + "]";
    if RefMatch(t).Some? {
      var m := RefMatch(t).value;
      RefMatchChars(t);
      if m <= |s| {
        assert t[..m] == s[..m];
        RefMatchAgree(t, s, m);
      }
    }
  }

  /** `_format_ref_array([])` is `[]`, which reads back as no tokens. */
  lemma FormatEmpty()
    ensures FormatRefArray([]) == "[]"
    ensures ParseRefArray("[]") == []
  {
    assert "[]" == ['['] + "]" && "]" == [']'] + [];
    ParseSkip('[', "]");
    ParseSkip(']', []);
  }

  lemma ParseBracketed(refs: seq<string>)
    requires AllRefs(refs)
    ensures ParseRefArray(['['] + (Join(refs) + "]")) == refs
  {
    ParseSkip('[', Join(refs) + "]");
    ParseJoined(refs, "]");
    assert "]" == [']'] + [];
    ParseSkip(']', []);
  }

  /** Formatting then parsing gives back the tokens, in order and with repeats. */
  lemma FormatThenParse(refs: seq<string>)
    requires AllRefs(refs)
    ensures ParseRefArray(FormatRefArray(refs)) == refs
  {
    if refs == [] {
      FormatEmpty();
    } else {
      assert FormatRefArray(refs) == ['['] + (Join(refs) + "]");
      ParseBracketed(refs);
    }
  }

  /** Re-writing a parsed array and reading it again loses nothing. */
  lemma ParseIsStable(s: string)
    ensures ParseRefArray(FormatRefArray(ParseRefArray(s))) == ParseRefArray(s)
  {
    ParsedAreRefs(s);
    FormatThenParse(ParseRefArray(s));
  }

  /** A reference the program writes is a token, and reading its object number gives the number back. */
  lemma RefTextRoundTrip(xref: nat)
    ensures IsRef(RefText(xref))
    ensures RefTarget(RefText(xref)) == Some(xref)
  {
    var digits := NatToString(xref);
    var t := RefText(xref);
    var n := |digits|;
    assert t[..n] == digits;
    assert t[n..] == " 0 R";
    DigitsFromExact(t, 0, n);
    SpacesFromExact(t, n, n + 1);
    DigitsFromExact(t, n + 1, n + 2);
    SpacesFromExact(t, n + 2, n + 3);
    SpacesFromExact(t, 0, 0);
    assert t[0..n] == digits;
    ParseNatToString(xref);
  }

  /** Distinct objects get distinct reference texts. */
  lemma RefTextInjective(a: nat, b: nat)
    requires RefText(a) == RefText(b)
    ensures a == b
  {
    RefTextRoundTrip(a);
    RefTextRoundTrip(b);
  }
}
