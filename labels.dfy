/**
 * The small string helpers the form builder uses to label its fields:
 * `Translator.text` (python/generate_form.py:267-274),
 * `part_label_from_field` (python/generate_form.py:276-284) and
 * `question_number_from_field` (python/generate_form.py:287-289).
 */
module Labels {
  import opened Wrappers
  import opened Text

  // ---- Translator.text (python/generate_form.py:112-163, 255-274)

  /** `DEFAULT_LANGUAGE` */
  const DefaultLanguage := "en"

  /** `I18N_KEYS`: the translation row of each text key. */
  const I18NKeys: map<string, string> := map[
    "title" := "1",
    "privacy_statement" := "2",
    "principal_purpose_label" := "3",
    "principal_purpose_text" := "4",
    "routine_uses_label" := "5",
    "routine_uses_text" := "6",
    "part_i_header" := "7",
    "admin_whiner_name_label" := "8",
    "admin_social_security_label" := "9",
    "admin_report_date_label" := "10",
    "admin_organization_label" := "11",
    "admin_preparer_label" := "12",
    "part_ii_header" := "13",
    "incident_date_label" := "14",
    "incident_time_label" := "15",
    "incident_location_label" := "16",
    "incident_offender_name_label" := "17",
    "incident_offender_org_label" := "18",
    "part_iii_header" := "19",
    "injury_question1" := "20",
    "left" := "21",
    "right" := "22",
    "both" := "23",
    "injury_question2" := "24",
    "yes" := "25",
    "no" := "26",
    "maybe" := "27",
    "injury_question3" := "28",
    "multiple" := "29",
    "injury_question4" := "30",
    "part_iv_header" := "31",
    "reason_thin_skinned" := "32",
    "reason_fix_problems" := "33",
    "reason_two_beers" := "34",
    "reason_wimp" := "35",
    "reason_easily_hurt" := "36",
    "reason_hands_pockets" := "37",
    "reason_hormones" := "38",
    "reason_not_signed_up" := "39",
    "reason_not_offered_post_brief" := "40",
    "reason_crybaby" := "41",
    "reason_not_hero" := "42",
    "reason_requested_post_brief" := "43",
    "reason_want_mommy" := "44",
    "reason_weather" := "45",
    "reason_all_above" := "46",
    "part_v_header" := "47",
    "part_vi_header" := "48",
    "auth_whiner_name_label" := "49",
    "auth_signature_label" := "50"
  ]

  /** A `Translator`: the selected language's texts and the English ones, by row. */
  datatype Translator = Translator(language: string, translations: map<string, string>, fallback: map<string, string>)

  /** `dict.get(k, "")` */
  function GetOrEmpty(m: map<string, string>, k: string): string {
    if k in m then m[k] else ""
  }

  /**
   * `Translator.text(key)`: the `KeyError` for a key with no row, else the
   * selected language's text for the row, falling back to the English text
   * (or "") when that is missing or empty.
   */
  function TranslatorText(t: Translator, key: string): (r: Result<string, string>)
    ensures r.Err? <==> key !in I18NKeys
    ensures r.Err? ==> r.error == "Translation key '" + key + "' is not defined."
  {
    if key !in I18NKeys then Err("Translation key '" + key + "' is not defined.")
    else
      var id := I18NKeys[key];
      if id in t.translations && t.translations[id] != "" then Ok(t.translations[id])
      else Ok(GetOrEmpty(t.fallback, id))
  }

  /**
   * A text the selected language has reads as that text; one it lacks (or
   * has empty) reads exactly as an English translator built on the same
   * fallback table would read it.
   */
  lemma TranslatorTextFallback(t: Translator, key: string)
    requires key in I18NKeys
    ensures var id := I18NKeys[key];
      var english := Translator(DefaultLanguage, t.fallback, t.fallback);
      (id in t.translations && t.translations[id] != "" ==> TranslatorText(t, key) == Ok(t.translations[id]))
      && (!(id in t.translations && t.translations[id] != "") ==> TranslatorText(t, key) == TranslatorText(english, key))
  {
  }

  // ---- part_label_from_field (python/generate_form.py:24-35, 276-284)

  /** `PART_ROMANS` */
  const PartRomans: map<nat, string> := map[1 := "I", 2 := "II", 3 := "III", 4 := "IV", 5 := "V", 6 := "VI"]

  /** `PART_PREFIX_PART`, in its insertion order. */
  const PartPrefixes: seq<(string, nat)> := [("injury", 3), ("reason_filing", 4)]

  /** `PART_ROMANS.get(n, str(n))` */
  function RomanOr(n: nat): string {
    if n in PartRomans then PartRomans[n] else NatToString(n)
  }

  /** The part number of the first prefix from index `i` on that the name starts with. */
  function PrefixPart(name: string, i: nat): (r: Option<nat>)
    requires i <= |PartPrefixes|
    ensures r.Some? ==> exists j :: i <= j < |PartPrefixes| && StartsWith(name, PartPrefixes[j].0) && r.value == PartPrefixes[j].1
    decreases |PartPrefixes| - i
  {
    if i == |PartPrefixes| then None
    else if StartsWith(name, PartPrefixes[i].0) then Some(PartPrefixes[i].1)
    else PrefixPart(name, i + 1)
  }

  /** `re.match(r"part(\d+)", name)`: the number after a leading `part`, when digits follow it. */
  function PartNumber(name: string): (r: Option<nat>) {
    if StartsWith(name, "part") && DigitsFrom(name, 4) > 4 then
      DigitsFromAreDigits(name, 4);
      Some(ParseNat(name[4..DigitsFrom(name, 4)]))
    else None
  }

  /** `part_label_from_field(name)` */
  function PartLabel(name: string): (r: string)
    ensures r == "Part" || StartsWith(r, "Part ")
  {
    match PrefixPart(name, 0)
    case Some(n) => "Part " + RomanOr(n)
    case None =>
      match PartNumber(name)
      case Some(n) => "Part " + RomanOr(n)
      case None => "Part"
  }

  /** The prefix table wins: `injury...` fields are part III and `reason_filing...` fields part IV. */
  lemma PartLabelPrefixes(name: string)
    ensures StartsWith(name, "injury") ==> PartLabel(name) == "Part III"
    ensures StartsWith(name, "reason_filing") ==> PartLabel(name) == "Part IV"
  {
    if StartsWith(name, "reason_filing") {
      assert name[0] == 'r';
    }
  }

  /** A name whose first character differs from a prefix's does not start with it. */
  lemma NotStartsWith(s: string, prefix: string)
    requires s != [] && prefix != [] && s[0] != prefix[0]
    ensures !StartsWith(s, prefix)
  {
    if |prefix| <= |s| {
      assert s[..|prefix|][0] == s[0];
    }
  }

  /** `part<n>` followed by anything but a digit reads as part number n. */
  lemma PartNumberOf(n: nat, rest: string)
    requires rest == [] || !IsDigit(rest[0])
    ensures PartNumber("part" + NatToString(n) + rest) == Some(n)
  {
    var digits := NatToString(n);
    var name := "part" + digits + rest;
    assert name[..4] == "part";
    forall k | 4 <= k < 4 + |digits|
      ensures IsDigit(name[k])
    {
      assert name[k] == digits[k - 4];
    }
    if rest != [] {
      assert name[4 + |digits|] == rest[0];
    }
    DigitsFromExact(name, 4, 4 + |digits|);
    assert name[4..4 + |digits|] == digits;
    ParseNatToString(n);
  }

  /**
   * A field named `part<n>` followed by anything but a digit is labelled
   * with part n: its roman numeral for parts I to VI, else the number itself.
   */
  lemma PartLabelNumbered(n: nat, rest: string)
    requires rest == [] || !IsDigit(rest[0])
    ensures PartLabel("part" + NatToString(n) + rest) == "Part " + RomanOr(n)
  {
    var name := "part" + NatToString(n) + rest;
    assert name[0] == 'p';
    NotStartsWith(name, PartPrefixes[0].0);
    NotStartsWith(name, PartPrefixes[1].0);
    assert PrefixPart(name, 0) == None;
    PartNumberOf(n, rest);
  }

  /** A name with no prefix from the table and no `part<digits>` at its start is labelled plain "Part". */
  lemma PartLabelPlain(name: string)
    requires forall j :: 0 <= j < |PartPrefixes| ==> !StartsWith(name, PartPrefixes[j].0)
    requires !StartsWith(name, "part") || |name| == 4 || !IsDigit(name[4])
    ensures PartLabel(name) == "Part"
  {
    assert !StartsWith(name, PartPrefixes[0].0) && !StartsWith(name, PartPrefixes[1].0);
  }

  // ---- question_number_from_field (python/generate_form.py:287-289)

  /** `question` followed by a digit starts at `i`: where `question(\d+)` can match. */
  ghost predicate QuestionAt(s: string, i: nat) {
    i + 9 <= |s| && s[i..i + 8] == "question" && IsDigit(s[i + 8])
  }

  /** The leftmost position from `p` on where `question(\d+)` matches. */
  function QuestionFrom(s: string, p: nat): (r: Option<nat>)
    requires p <= |s|
    ensures r.Some? ==> p <= r.value && r.value + 9 <= |s|
    decreases |s| - p
  {
    if p + 9 > |s| then None
    else if s[p..p + 8] == "question" && IsDigit(s[p + 8]) then Some(p)
    else QuestionFrom(s, p + 1)
  }

  /** `question_number_from_field(name)`: the greedy digit group of the first match, or "". */
  function QuestionNumber(name: string): (r: string)
    ensures AllDigits(r)
  {
    match QuestionFrom(name, 0)
    case Some(i) =>
      DigitsFromAreDigits(name, i + 8);
      name[i + 8..DigitsFrom(name, i + 8)]
    case None => ""
  }

  /** The match found is the leftmost one; when none is found there is none from `p` on. */
  lemma {:induction false} QuestionFromIsFirst(s: string, p: nat)
    requires p <= |s|
    ensures QuestionFrom(s, p).Some? ==>
      QuestionAt(s, QuestionFrom(s, p).value) && forall j :: p <= j < QuestionFrom(s, p).value ==> !QuestionAt(s, j)
    ensures QuestionFrom(s, p).None? ==> forall j :: p <= j ==> !QuestionAt(s, j)
    decreases |s| - p
  {
    if p + 9 <= |s| && !(s[p..p + 8] == "question" && IsDigit(s[p + 8])) {
      QuestionFromIsFirst(s, p + 1);
    }
  }

  /**
   * `re.search` semantics: when `question` followed by a digit occurs
   * nowhere the answer is empty; otherwise the search stops at the leftmost
   * such occurrence and the answer is the whole run of digits after it.
   */
  lemma QuestionNumberSpec(name: string)
    ensures var r := QuestionNumber(name);
      var m := QuestionFrom(name, 0);
      (m.None? ==> r == "" && forall i: nat :: !QuestionAt(name, i))
      && (m.Some? ==>
            r != "" && QuestionAt(name, m.value) && (forall j :: 0 <= j < m.value ==> !QuestionAt(name, j))
            && m.value + 8 + |r| <= |name| && name[m.value + 8..m.value + 8 + |r|] == r
            && (m.value + 8 + |r| == |name| || !IsDigit(name[m.value + 8 + |r|])))
  {
    QuestionFromIsFirst(name, 0);
    match QuestionFrom(name, 0)
    case Some(i) =>
      var e := DigitsFrom(name, i + 8);
      assert e > i + 8;
      DigitsFromStops(name, i + 8);
      assert name[i + 8..i + 8 + (e - (i + 8))] == QuestionNumber(name);
    case None =>
  }

  /** A digit run stops at the end of the text or before a character that is not a digit. */
  lemma {:induction false} DigitsFromStops(s: string, i: nat)
    requires i <= |s|
    ensures DigitsFrom(s, i) == |s| || !IsDigit(s[DigitsFrom(s, i)])
    decreases |s| - i
  {
    if i < |s| && IsDigit(s[i]) { DigitsFromStops(s, i + 1); }
  }

  /** `question<n>` followed by anything but a digit gives back `str(n)`. */
  lemma QuestionNumberOf(n: nat, rest: string)
    requires rest == [] || !IsDigit(rest[0])
    ensures QuestionNumber("question" + NatToString(n) + rest) == NatToString(n)
  {
    var digits := NatToString(n);
    var name := "question" + digits + rest;
    assert name[..8] == "question";
    assert name[8] == digits[0];
    forall k | 8 <= k < 8 + |digits|
      ensures IsDigit(name[k])
    {
      assert name[k] == digits[k - 8];
    }
    if rest != [] {
      assert name[8 + |digits|] == rest[0];
    }
    DigitsFromExact(name, 8, 8 + |digits|);
    assert name[8..8 + |digits|] == digits;
  }
}
