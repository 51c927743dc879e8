/** The value extractor of src/data_processing/pdf_process.py: the leftmost
    match of `Hemoglobina[^0-9]*([\d,.]+)[^\d]*` in the text of a report, and
    its first group. The regular expression is modelled by the search the
    matcher performs: each start position in turn, the label, the greedy
    `[^0-9]*` given back one character at a time until the greedy `[\d,.]+`
    matches. The trailing `[^\d]*` matches the empty string everywhere, so it
    never decides whether or where a match is found. */
module PdfProcess {
  import opened Wrappers

  const Label: string := "Hemoglobina"

  /** The class `[0-9]`. */
  predicate IsAsciiDigit(c: char)
  {
    '0' <= c <= '9'
  }

  /** The class `\d`, modelled as the ASCII digits. */
  predicate IsDecimal(c: char)
  {
    IsAsciiDigit(c)
  }

  predicate IsSeparator(c: char)
  {
    c == ',' || c == '.'
  }

  /** The class `[\d,.]`. */
  predicate IsValueChar(c: char)
  {
    IsDecimal(c) || IsSeparator(c)
  }

  predicate LabelAt(t: string, p: nat)
  {
    p + |Label| <= |t| && t[p..p + |Label|] == Label
  }

  /** Where the greedy `[^0-9]*` from position i stops: at the first ASCII
      digit, or at the end of the text. */
  function NonDigitRun(t: string, i: nat): (j: nat)
    requires i <= |t|
    ensures i <= j <= |t|
    ensures forall k :: i <= k < j ==> !IsAsciiDigit(t[k])
    ensures j < |t| ==> IsAsciiDigit(t[j])
    decreases |t| - i
  {
    if i == |t| || IsAsciiDigit(t[i]) then i else NonDigitRun(t, i + 1)
  }

  /** How many characters the greedy `[\d,.]*` takes from position i: the
      run stops at the first character outside the class. */
  function ValueRun(t: string, i: nat): (n: nat)
    requires i <= |t|
    ensures i + n <= |t|
    ensures forall k :: i <= k < i + n ==> IsValueChar(t[k])
    ensures i + n < |t| ==> !IsValueChar(t[i + n])
    decreases |t| - i
  {
    if i == |t| || !IsValueChar(t[i]) then 0 else 1 + ValueRun(t, i + 1)
  }

  /** A match: where the label starts, and the bounds of the first group. */
  datatype Match = Match(labelStart: nat, groupStart: nat, groupEnd: nat)

  /** Backtracking of `[^0-9]*`: with the repetition ending at j, the group
      is the greedy `[\d,.]+` there if it is non-empty; otherwise the
      repetition gives back one more character, down to none at all. */
  function TryValue(t: string, start: nat, j: nat): (r: Option<(nat, nat)>)
    requires start <= j <= |t|
    ensures r.Some? ==> start <= r.value.0 < r.value.1 <= |t|
    ensures r.Some? ==> forall k :: r.value.0 <= k < r.value.1 ==> IsValueChar(t[k])
    decreases j - start
  {
    var n := ValueRun(t, j);
    if n > 0 then Some((j, j + n))
    else if j == start then None
    else TryValue(t, start, j - 1)
  }

  /** The pattern anchored at position p. */
  function MatchAt(t: string, p: nat): (r: Option<Match>)
    requires p <= |t|
    ensures r.Some? ==> r.value.labelStart == p && LabelAt(t, p) && p + |Label| <= r.value.groupStart < r.value.groupEnd <= |t|
    ensures r.Some? ==> forall k :: r.value.groupStart <= k < r.value.groupEnd ==> IsValueChar(t[k])
  {
    if !LabelAt(t, p) then None
    else
      var s := p + |Label|;
      match TryValue(t, s, NonDigitRun(t, s))
      case None => None
      case Some(g) => Some(Match(p, g.0, g.1))
  }

  /** `re.search`: the match at the leftmost start position p or after it. */
  function SearchFrom(t: string, p: nat): (r: Option<Match>)
    requires p <= |t|
    ensures r.Some? ==> p <= r.value.labelStart && LabelAt(t, r.value.labelStart)
    ensures r.Some? ==> r.value.labelStart + |Label| <= r.value.groupStart < r.value.groupEnd <= |t|
    ensures r.Some? ==> forall k :: r.value.groupStart <= k < r.value.groupEnd ==> IsValueChar(t[k])
    decreases |t| - p
  {
    var m := MatchAt(t, p);
    if m.Some? then m
    else if p == |t| then None
    else SearchFrom(t, p + 1)
  }

  /** `extract_hemoglobin_value`: the first group of the leftmost match. */
  function ExtractHemoglobinValue(t: string): (r: Option<string>)
    ensures r.Some? ==> |r.value| > 0
    ensures r.Some? ==> forall k :: 0 <= k < |r.value| ==> IsValueChar(r.value[k])
  {
    match SearchFrom(t, 0)
    case None => None
    case Some(m) => Some(t[m.groupStart..m.groupEnd])
  }

  // ---------------------------------------------------------------------
  // A reference description without backtracking

  /** The first occurrence of the label at or after p. */
  function FirstLabel(t: string, p: nat): (r: Option<nat>)
    requires p <= |t|
    ensures r.Some? ==> p <= r.value && LabelAt(t, r.value) && forall q :: p <= q < r.value ==> !LabelAt(t, q)
    ensures r.None? ==> forall q :: p <= q <= |t| ==> !LabelAt(t, q)
    decreases |t| - p
  {
    if LabelAt(t, p) then Some(p)
    else if p == |t| then None
    else FirstLabel(t, p + 1)
  }

  /** The last ',' or '.' among positions s up to e (exclusive). */
  function LastSeparator(t: string, s: nat, e: nat): (r: Option<nat>)
    requires s <= e <= |t|
    ensures r.Some? ==> s <= r.value < e && IsSeparator(t[r.value])
    ensures r.Some? ==> forall k :: r.value < k < e ==> !IsSeparator(t[k])
    ensures r.None? ==> forall k :: s <= k < e ==> !IsSeparator(t[k])
    decreases e - s
  {
    if e == s then None
    else if IsSeparator(t[e - 1]) then Some(e - 1)
    else LastSeparator(t, s, e - 1)
  }

  /** What the pattern finds, said directly: after the first label, the run
      that starts at the first ASCII digit; when no digit follows the label,
      the last single ',' or '.' after it; otherwise nothing. */
  function HemoglobinReference(t: string): Option<string>
  {
    match FirstLabel(t, 0)
    case None => None
    case Some(p) =>
      var s := p + |Label|;
      var d := NonDigitRun(t, s);
      if d < |t| then Some(t[d..d + ValueRun(t, d)])
      else
        match LastSeparator(t, s, |t|)
        case None => None
        case Some(k) => Some([t[k]])
  }

  /** The extractor and the reference description agree on every text. */
  lemma ExtractMatchesReference(t: string)
    ensures ExtractHemoglobinValue(t) == HemoglobinReference(t)
  {
    var first := FirstLabel(t, 0);
    if first.None? {
      NoLabelNoMatch(t, 0);
    } else {
      var p := first.value;
      SearchSkipsToLabel(t, 0, p);
      if NonDigitRun(t, p + |Label|) < |t| {
        ExtractWithDigit(t, p);
      } else {
        ExtractWithoutDigit(t, p);
      }
    }
  }

  /** The reference case with a digit after the first label. */
  lemma ExtractWithDigit(t: string, p: nat)
    requires FirstLabel(t, 0) == Some(p) && NonDigitRun(t, p + |Label|) < |t|
    requires SearchFrom(t, 0) == SearchFrom(t, p)
    ensures ExtractHemoglobinValue(t) == HemoglobinReference(t)
  {
    ExtractIsDigitGroup(t, p);
    ReferenceWithDigit(t, p);
  }

  lemma ExtractIsDigitGroup(t: string, p: nat)
    requires LabelAt(t, p) && NonDigitRun(t, p + |Label|) < |t|
    requires SearchFrom(t, 0) == SearchFrom(t, p)
    ensures var d := NonDigitRun(t, p + |Label|);
      ExtractHemoglobinValue(t) == Some(t[d..d + ValueRun(t, d)])
  {
    var d := NonDigitRun(t, p + |Label|);
    var m := Match(p, d, d + ValueRun(t, d));
    MatchAtWithDigit(t, p);
    SearchAtMatch(t, p, m);
    ExtractOfSearch(t, m);
  }

  /** The search stops at the first start position that matches. */
  lemma SearchAtMatch(t: string, p: nat, m: Match)
    requires p <= |t| && MatchAt(t, p) == Some(m)
    ensures SearchFrom(t, p) == Some(m)
  {
  }

  lemma ExtractOfSearch(t: string, m: Match)
    requires SearchFrom(t, 0) == Some(m)
    ensures ExtractHemoglobinValue(t) == Some(t[m.groupStart..m.groupEnd])
  {
  }

  lemma ReferenceWithDigit(t: string, p: nat)
    requires FirstLabel(t, 0) == Some(p) && NonDigitRun(t, p + |Label|) < |t|
    ensures var d := NonDigitRun(t, p + |Label|);
      HemoglobinReference(t) == Some(t[d..d + ValueRun(t, d)])
  {
  }

  /** The reference case without a digit after the first label. */
  lemma ExtractWithoutDigit(t: string, p: nat)
    requires FirstLabel(t, 0) == Some(p) && NonDigitRun(t, p + |Label|) == |t|
    requires SearchFrom(t, 0) == SearchFrom(t, p)
    ensures ExtractHemoglobinValue(t) == HemoglobinReference(t)
  {
    var last := LastSeparator(t, p + |Label|, |t|);
    if last.Some? {
      MatchAtLastSeparator(t, p, last.value);
      ExtractLastSeparator(t, p, last.value);
    } else {
      MatchAtNoSeparator(t, p);
      ExtractNothing(t, p);
    }
  }

  lemma ExtractLastSeparator(t: string, p: nat, k: nat)
    requires FirstLabel(t, 0) == Some(p) && NonDigitRun(t, p + |Label|) == |t|
    requires LastSeparator(t, p + |Label|, |t|) == Some(k)
    requires SearchFrom(t, 0) == SearchFrom(t, p)
    requires MatchAt(t, p) == Some(Match(p, k, k + 1))
    ensures ExtractHemoglobinValue(t) == Some([t[k]]) == HemoglobinReference(t)
  {
    assert t[k..k + 1] == [t[k]];
  }

  lemma ExtractNothing(t: string, p: nat)
    requires FirstLabel(t, 0) == Some(p) && NonDigitRun(t, p + |Label|) == |t|
    requires LastSeparator(t, p + |Label|, |t|) == None
    requires SearchFrom(t, 0) == SearchFrom(t, p)
    requires MatchAt(t, p) == None
    ensures ExtractHemoglobinValue(t) == None == HemoglobinReference(t)
  {
    NothingAfterFailedLabel(t, p, p + 1);
  }

  /** At a label followed by an ASCII digit, the group is the run from the
      first such digit. */
  lemma MatchAtWithDigit(t: string, p: nat)
    requires LabelAt(t, p) && NonDigitRun(t, p + |Label|) < |t|
    ensures var d := NonDigitRun(t, p + |Label|);
      MatchAt(t, p) == Some(Match(p, d, d + ValueRun(t, d)))
  {
    var d := NonDigitRun(t, p + |Label|);
    assert IsValueChar(t[d]);
  }

  /** At a label followed by no ASCII digit, the group is the last
      separator after it. */
  lemma MatchAtLastSeparator(t: string, p: nat, k: nat)
    requires LabelAt(t, p) && NonDigitRun(t, p + |Label|) == |t|
    requires LastSeparator(t, p + |Label|, |t|) == Some(k)
    ensures MatchAt(t, p) == Some(Match(p, k, k + 1))
  {
    TryValueWithoutDigits(t, p + |Label|, |t|);
  }

  /** At a label followed by neither an ASCII digit nor a separator, there
      is no match. */
  lemma MatchAtNoSeparator(t: string, p: nat)
    requires LabelAt(t, p) && NonDigitRun(t, p + |Label|) == |t|
    requires LastSeparator(t, p + |Label|, |t|) == None
    ensures MatchAt(t, p) == None
  {
    TryValueWithoutDigits(t, p + |Label|, |t|);
  }

  /** Start positions without the label match nothing. */
  lemma {:induction false} SearchSkipsToLabel(t: string, q: nat, p: nat)
    requires q <= p <= |t|
    requires forall i :: q <= i < p ==> !LabelAt(t, i)
    ensures SearchFrom(t, q) == SearchFrom(t, p)
    decreases p - q
  {
    if q < p {
      assert !LabelAt(t, q);
      assert MatchAt(t, q) == None;
      assert SearchFrom(t, q) == SearchFrom(t, q + 1);
      SearchSkipsToLabel(t, q + 1, p);
    }
  }

  /** A text without the label has no match. */
  lemma {:induction false} NoLabelNoMatch(t: string, q: nat)
    requires q <= |t|
    requires forall i :: q <= i <= |t| ==> !LabelAt(t, i)
    ensures SearchFrom(t, q).None?
    decreases |t| - q
  {
    assert !LabelAt(t, q);
    assert MatchAt(t, q) == None;
    if q < |t| {
      NoLabelNoMatch(t, q + 1);
    }
  }

  /** In a stretch free of ASCII digits, backtracking stops at the last
      separator and the group is that one character. */
  lemma {:induction false} TryValueWithoutDigits(t: string, s: nat, j: nat)
    requires s <= j <= |t|
    requires forall k :: s <= k < |t| ==> !IsAsciiDigit(t[k])
    requires forall k :: j < k < |t| ==> !IsSeparator(t[k])
    ensures var last := LastSeparator(t, s, if j < |t| then j + 1 else j);
      && (last.None? ==> TryValue(t, s, j).None?)
      && (last.Some? ==> TryValue(t, s, j) == Some((last.value, last.value + 1)))
    decreases j - s
  {
    var e := if j < |t| then j + 1 else j;
    if j < |t| && IsSeparator(t[j]) {
      assert ValueRun(t, j + 1) == 0 by {
        assert j + 1 < |t| ==> !IsValueChar(t[j + 1]);
      }
      assert ValueRun(t, j) == 1;
      assert TryValue(t, s, j) == Some((j, j + 1));
      assert LastSeparator(t, s, e) == Some(j);
    } else {
      assert ValueRun(t, j) == 0 by {
        assert j < |t| ==> !IsValueChar(t[j]);
      }
      assert LastSeparator(t, s, e) == LastSeparator(t, s, j);
      if j > s {
        assert TryValue(t, s, j) == TryValue(t, s, j - 1);
        TryValueWithoutDigits(t, s, j - 1);
      } else {
        assert TryValue(t, s, j) == None;
        assert LastSeparator(t, s, j) == None;
      }
    }
  }

  /** Once the first label has failed, no later start position matches:
      whatever follows a later label also follows the first. */
  lemma {:induction false} NothingAfterFailedLabel(t: string, p: nat, q: nat)
    requires p < q <= |t|
    requires p + |Label| <= |t|
    requires forall k :: p + |Label| <= k < |t| ==> !IsAsciiDigit(t[k]) && !IsSeparator(t[k])
    ensures SearchFrom(t, q).None?
    decreases |t| - q
  {
    if LabelAt(t, q) {
      TryValueWithoutDigits(t, q + |Label|, |t|);
      assert LastSeparator(t, q + |Label|, |t|).None?;
    }
    if q < |t| {
      NothingAfterFailedLabel(t, p, q + 1);
    }
  }

  // ---------------------------------------------------------------------
  // Properties of the extractor

  /** Without the case-sensitive label there is no value. */
  lemma NoLabelNoValue(t: string)
    requires forall p :: 0 <= p <= |t| ==> !LabelAt(t, p)
    ensures ExtractHemoglobinValue(t) == None
  {
    NoLabelNoMatch(t, 0);
  }

  /** The text holds v at position b. */
  predicate OccursAt(t: string, b: nat, v: string)
  {
    b + |v| <= |t| && t[b..b + |v|] == v
  }

  /** A value is a piece of the text that lies after an occurrence of the label. */
  lemma ValueFollowsLabel(t: string)
    ensures ExtractHemoglobinValue(t).Some? ==>
      exists p: nat, b: nat :: LabelAt(t, p) && p + |Label| <= b && OccursAt(t, b, ExtractHemoglobinValue(t).value)
  {
    var m := SearchFrom(t, 0);
    if m.Some? {
      var v := ExtractHemoglobinValue(t).value;
      assert v == t[m.value.groupStart..m.value.groupEnd];
      assert LabelAt(t, m.value.labelStart) && m.value.labelStart + |Label| <= m.value.groupStart &&
             OccursAt(t, m.value.groupStart, v);
    }
  }

  /** With an ASCII digit after the first label, the value is the longest
      run of digits, ',' and '.' that starts at the first such digit. */
  lemma FirstDigitRunAfterFirstLabel(t: string, p: nat, d: nat)
    requires LabelAt(t, p) && forall q :: 0 <= q < p ==> !LabelAt(t, q)
    requires p + |Label| <= d < |t| && IsAsciiDigit(t[d])
    requires forall k :: p + |Label| <= k < d ==> !IsAsciiDigit(t[k])
    ensures ExtractHemoglobinValue(t) == Some(t[d..d + ValueRun(t, d)])
    ensures d + ValueRun(t, d) == |t| || !IsValueChar(t[d + ValueRun(t, d)])
  {
    SearchSkipsToLabel(t, 0, p);
    assert NonDigitRun(t, p + |Label|) == d;
    MatchAtWithDigit(t, p);
    ExtractOfSearch(t, Match(p, d, d + ValueRun(t, d)));
  }

  /** A typical report line. */
  lemma TypicalReportLine()
    ensures ExtractHemoglobinValue("Hemoglobina: 13,5 g/dL") == Some("13,5")
  {
    var t := "Hemoglobina: 13,5 g/dL";
    assert LabelAt(t, 0) by {
      assert t[0..11] == Label;
    }
    assert NonDigitRun(t, 11) == 13 by {
      assert NonDigitRun(t, 13) == 13;
      assert NonDigitRun(t, 12) == 13;
    }
    assert ValueRun(t, 13) == 4 by {
      assert ValueRun(t, 17) == 0;
      assert ValueRun(t, 16) == 1;
      assert ValueRun(t, 15) == 2;
      assert ValueRun(t, 14) == 3;
    }
    MatchAtWithDigit(t, 0);
    assert SearchFrom(t, 0) == Some(Match(0, 13, 17));
    ExtractOfSearch(t, Match(0, 13, 17));
    assert t[13..17] == "13,5";
  }

  /** When no digit, ',' or '.' follows any occurrence of the label, there
      is no value. */
  lemma NoValueCharNoValue(t: string)
    requires forall p: nat, k :: LabelAt(t, p) && p + |Label| <= k < |t| ==> !IsValueChar(t[k])
    ensures ExtractHemoglobinValue(t) == None
  {
    ExtractMatchesReference(t);
    match FirstLabel(t, 0)
    case None =>
    case Some(p) =>
      assert LastSeparator(t, p + |Label|, |t|).None?;
  }

  // ---------------------------------------------------------------------
  // The lone separator

  /** As written, a report that gives no number still yields a value: the
      single '.' of "n.d." (not determined). */
  lemma LoneSeparatorExtracted()
    ensures ExtractHemoglobinValue("Hemoglobina: n.d.") == Some(".")
  {
    var t := "Hemoglobina: n.d.";
    assert LabelAt(t, 0);
    NotDeterminedHasNoDigit();
    assert LastSeparator(t, 11, 17) == Some(16);
    MatchAtLastSeparator(t, 0, 16);
    assert SearchFrom(t, 0) == Some(Match(0, 16, 17));
    ExtractOfSearch(t, Match(0, 16, 17));
    assert t[16..17] == ".";
  }

  lemma NotDeterminedHasNoDigit()
    ensures NonDigitRun("Hemoglobina: n.d.", 11) == 17
  {
    var t := "Hemoglobina: n.d.";
    assert NonDigitRun(t, 17) == 17;
    assert NonDigitRun(t, 16) == 17;
    assert NonDigitRun(t, 15) == 17;
    assert NonDigitRun(t, 14) == 17;
    assert NonDigitRun(t, 13) == 17;
    assert NonDigitRun(t, 12) == 17;
  }

  /** The evident intent, a number after the label: the value must start
      with a digit, and nothing is returned otherwise. */
  function ExtractHemoglobinNumber(t: string): (r: Option<string>)
    ensures r.Some? ==> |r.value| > 0 && IsAsciiDigit(r.value[0])
    ensures r.Some? ==> forall k :: 0 <= k < |r.value| ==> IsValueChar(r.value[k])
    ensures r.Some? <==> FirstLabel(t, 0).Some? && NonDigitRun(t, FirstLabel(t, 0).value + |Label|) < |t|
  {
    match FirstLabel(t, 0)
    case None => None
    case Some(p) =>
      var d := NonDigitRun(t, p + |Label|);
      if d < |t| then Some(t[d..d + ValueRun(t, d)]) else None
  }

  /** The corrected extractor differs from the original only where the
      original returns a lone separator. */
  lemma NumberAgreesExceptLoneSeparator(t: string)
    ensures ExtractHemoglobinNumber(t).Some? ==> ExtractHemoglobinValue(t) == ExtractHemoglobinNumber(t)
    ensures ExtractHemoglobinNumber(t).None? && ExtractHemoglobinValue(t).Some? ==>
      |ExtractHemoglobinValue(t).value| == 1 && IsSeparator(ExtractHemoglobinValue(t).value[0])
  {
    ExtractMatchesReference(t);
  }

  /** The corrected extractor returns nothing for "n.d.". */
  lemma NumberRejectsLoneSeparator()
    ensures ExtractHemoglobinNumber("Hemoglobina: n.d.") == None
  {
    var t := "Hemoglobina: n.d.";
    assert LabelAt(t, 0);
    assert FirstLabel(t, 0) == Some(0);
    NotDeterminedHasNoDigit();
  }
}
