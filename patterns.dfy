/** The pattern searches of `extract_resume_details`, as Python's `re.search`
    runs them: the leftmost start position at which the pattern matches. The
    name, job-status and description patterns are modelled exactly; the email
    and phone patterns are abstract matchers. */
module Patterns {
  import opened Common

  /** Python's `\s` in a str pattern: the characters `str.isspace` accepts. */
  predicate IsSpace(c: char)
  {
    c == ' ' || ('\t' <= c && c <= '\r') || ('\U{1C}' <= c && c <= '\U{1F}') || c == '\U{85}' || c == '\U{A0}'
    || c == '\U{1680}' || ('\U{2000}' <= c && c <= '\U{200A}') || c == '\U{2028}' || c == '\U{2029}'
    || c == '\U{202F}' || c == '\U{205F}' || c == '\U{3000}'
  }

  /** `[A-Z]` */
  predicate IsUpper(c: char) { ('A' <= c && c <= 'Z') }

  /** `[a-z]` */
  predicate IsLower(c: char) { ('a' <= c && c <= 'z') }

  /** `text` reads `word` from position `p` on. */
  predicate LiteralAt(text: string, p: nat, word: string)
  {
    p + |word| <= |text| && text[p..p + |word|] == word
  }

  /** Which of the alternatives `words` the text reads at `p`, trying them in
      order (the first that fits). */
  function FirstWordAt(text: string, p: nat, words: seq<string>): (r: Option<nat>)
    ensures r.Some? ==> r.value < |words| && LiteralAt(text, p, words[r.value])
    ensures r.Some? ==> forall k :: 0 <= k < r.value ==> !LiteralAt(text, p, words[k])
    ensures r.None? ==> forall k :: 0 <= k < |words| ==> !LiteralAt(text, p, words[k])
  {
    if |words| == 0 then None
    else if LiteralAt(text, p, words[0]) then Some(0)
    else
      var r := FirstWordAt(text, p, words[1..]);
      if r.Some? then Some(r.value + 1) else None
  }

  /** `\s*`, greedy: the end of the run of whitespace that starts at `p`. */
  function SkipSpaces(text: string, p: nat): (q: nat)
    requires p <= |text|
    ensures p <= q <= |text|
    ensures forall j :: p <= j < q ==> IsSpace(text[j])
    ensures q == |text| || !IsSpace(text[q])
    decreases |text| - p
  {
    if p < |text| && IsSpace(text[p]) then SkipSpaces(text, p + 1) else p
  }

  /** `[a-z]*`, greedy: the end of the run of lower-case letters from `p`. */
  function LowerRunEnd(text: string, p: nat): (q: nat)
    requires p <= |text|
    ensures p <= q <= |text|
    ensures forall j :: p <= j < q ==> IsLower(text[j])
    ensures q == |text| || !IsLower(text[q])
    decreases |text| - p
  {
    if p < |text| && IsLower(text[p]) then LowerRunEnd(text, p + 1) else p
  }

  /** `.*` without DOTALL: the end of the line that starts at `p`. */
  function LineEnd(text: string, p: nat): (q: nat)
    requires p <= |text|
    ensures p <= q <= |text|
    ensures forall j :: p <= j < q ==> text[j] != '\n'
    ensures q == |text| || text[q] == '\n'
    decreases |text| - p
  {
    if p < |text| && text[p] != '\n' then LineEnd(text, p + 1) else p
  }

  /** `:?`, greedy: past the colon at `e`, if there is one. */
  function AfterColon(text: string, e: nat): nat
  {
    if e < |text| && text[e] == ':' then e + 1 else e
  }

  /** `text[lo..hi]` is all whitespace. */
  predicate AllSpace(text: string, lo: nat, hi: nat)
    requires lo <= hi <= |text|
  {
    forall j :: lo <= j < hi ==> IsSpace(text[j])
  }

  /** `(label|...):?\s*` read at `p` ends at `s`: the first label that fits
      at `p`, then the colon if one follows, then a whitespace run that
      stops at the end of the text or at a non-whitespace character. */
  predicate LabelledAt(text: string, p: nat, labels: seq<string>, s: nat)
  {
    var k := FirstWordAt(text, p, labels);
    k.Some? &&
    var c := AfterColon(text, p + |labels[k.value]|);
    c <= s <= |text| && AllSpace(text, c, s) && (s == |text| || !IsSpace(text[s]))
  }

  /** `(label|...):?\s*` at `p`: where the rest of the pattern starts, if a
      label is there. The optional colon is taken when present and the
      whitespace run is taken whole; backtracking into either cannot help,
      because every pattern continues with a token that matches neither a
      colon-less start nor a whitespace character, or (for `.*`) never fails. */
  function AfterLabel(text: string, p: nat, labels: seq<string>): (r: Option<nat>)
    requires p <= |text|
    ensures r.Some? ==> p <= r.value && LabelledAt(text, p, labels, r.value)
    ensures r.None? <==> forall k :: 0 <= k < |labels| ==> !LiteralAt(text, p, labels[k])
  {
    var k := FirstWordAt(text, p, labels);
    if k.None? then None
    else
      Some(SkipSpaces(text, AfterColon(text, p + |labels[k.value]|)))
  }

  /** The label part of a pattern ends at one place only, and that is where
      `AfterLabel` says it ends. */
  lemma LabelledAtUnique(text: string, p: nat, labels: seq<string>, s: nat)
    requires p <= |text| && LabelledAt(text, p, labels, s)
    ensures AfterLabel(text, p, labels) == Some(s)
  {
    var k := FirstWordAt(text, p, labels).value;
    assert !(forall k' :: 0 <= k' < |labels| ==> !LiteralAt(text, p, labels[k']));
  }

  /** `[A-Z][a-z]+` at `p`: where the word ends. The run of lower-case
      letters is maximal; the name pattern continues with `\s`, which no
      lower-case letter matches, so a shorter run never helps. */
  function CapitalisedWordEnd(text: string, p: nat): (r: Option<nat>)
    requires p <= |text|
    ensures r.Some? <==> p + 1 < |text| && IsUpper(text[p]) && IsLower(text[p + 1])
    ensures r.Some? ==> p + 2 <= r.value <= |text| && IsUpper(text[p])
    ensures r.Some? ==> forall j :: p < j < r.value ==> IsLower(text[j])
    ensures r.Some? ==> r.value == |text| || !IsLower(text[r.value])
  {
    if p < |text| && IsUpper(text[p]) then
      var e := LowerRunEnd(text, p + 1);
      if e > p + 1 then Some(e) else None
    else None
  }

  /** `s[lo..hi]` is all lower-case letters. */
  predicate AllLower(s: string, lo: nat, hi: nat)
    requires lo <= hi <= |s|
  {
    forall j :: lo <= j < hi ==> IsLower(s[j])
  }

  /** `s` is `[A-Z][a-z]+\s[A-Z][a-z]+` with the whitespace at `k`. */
  predicate NameShapedAt(s: string, k: nat)
  {
    2 <= k && k + 3 <= |s| && IsSpace(s[k])
    && IsUpper(s[0]) && AllLower(s, 1, k)
    && IsUpper(s[k + 1]) && AllLower(s, k + 2, |s|)
  }

  /** The shape `[A-Z][a-z]+\s[A-Z][a-z]+` of a whole string. */
  ghost predicate NameShaped(s: string)
  {
    exists k :: NameShapedAt(s, k)
  }

  const NameLabels: seq<string> := ["Name", "Full Name"]
  const JobStatusLabels: seq<string> := ["Job Status", "Employment Status"]
  const JobStatuses: seq<string> := ["Employed", "Unemployed", "Freelancing"]
  const DescriptionLabels: seq<string> := ["Description", "About Me", "Summary"]

  /** `[A-Z][a-z]+\s[A-Z][a-z]+` read from `s`: the whitespace at `e1`, the
      end at `e2`, and each lower-case run as long as it goes. */
  predicate CapitalisedPairAt(text: string, s: nat, e1: nat, e2: nat)
  {
    s + 2 <= e1 && e1 + 3 <= e2 <= |text|
    && IsUpper(text[s]) && AllLower(text, s + 1, e1) && IsSpace(text[e1])
    && IsUpper(text[e1 + 1]) && AllLower(text, e1 + 2, e2)
    && (e2 == |text| || !IsLower(text[e2]))
  }

  /** Group 2 of `(Name|Full Name):?\s*([A-Z][a-z]+\s[A-Z][a-z]+)` matched at `p`. */
  function NameAt(text: string, p: nat): (r: Option<string>)
    ensures r.Some? ==> p <= |text| && exists s: nat, e1: nat, e2: nat ::
      LabelledAt(text, p, NameLabels, s) && CapitalisedPairAt(text, s, e1, e2) && r.value == text[s..e2]
    ensures r.Some? ==> NameShaped(r.value)
  {
    if p > |text| then None
    else
      var s := AfterLabel(text, p, NameLabels);
      if s.None? then None
      else
        var e1 := CapitalisedWordEnd(text, s.value);
        if e1.None? || e1.value == |text| || !IsSpace(text[e1.value]) then None
        else
          var e2 := CapitalisedWordEnd(text, e1.value + 1);
          if e2.None? then None
          else
            assert CapitalisedPairAt(text, s.value, e1.value, e2.value);
            NameSpanShaped(text, s.value, e1.value, e2.value);
            Some(text[s.value..e2.value])
  }

  /** Two capitalised words separated by one whitespace character, read
      from the text, have the name shape. */
  lemma NameSpanShaped(text: string, s: nat, e1: nat, e2: nat)
    requires CapitalisedPairAt(text, s, e1, e2)
    ensures NameShapedAt(text[s..e2], e1 - s)
  {
    var name, k := text[s..e2], e1 - s;
    forall j | 1 <= j < k ensures IsLower(name[j]) { assert name[j] == text[s + j]; }
    forall j | k + 2 <= j < |name| ensures IsLower(name[j]) { assert name[j] == text[s + j]; }
  }

  /** A name label followed by two capitalised words is always found, and the
      name is exactly those two words. */
  lemma NameFoundAfterLabel(text: string, p: nat, s: nat, e1: nat, e2: nat)
    requires p <= |text| && LabelledAt(text, p, NameLabels, s) && CapitalisedPairAt(text, s, e1, e2)
    ensures NameAt(text, p) == Some(text[s..e2])
  {
    LabelledAtUnique(text, p, NameLabels, s);
    assert CapitalisedWordEnd(text, s) == Some(e1);
    assert CapitalisedWordEnd(text, e1 + 1) == Some(e2);
  }

  /** Group 2 of `(Job Status|Employment Status):?\s*(Employed|Unemployed|Freelancing)` matched at `p`. */
  function JobStatusAt(text: string, p: nat): (r: Option<string>)
    ensures r.Some? ==> p <= |text| && exists s: nat ::
      LabelledAt(text, p, JobStatusLabels, s) && LiteralAt(text, s, r.value)
    ensures r.Some? ==> r.value in JobStatuses
  {
    if p > |text| then None
    else
      var s := AfterLabel(text, p, JobStatusLabels);
      if s.None? then None
      else
        var k := FirstWordAt(text, s.value, JobStatuses);
        if k.None? then None else Some(JobStatuses[k.value])
  }

  /** A job-status label followed by one of the three status words is always
      found, and the status is that word. */
  lemma JobStatusFoundAfterLabel(text: string, p: nat, s: nat, k: nat)
    requires p <= |text| && LabelledAt(text, p, JobStatusLabels, s)
    requires k < |JobStatuses| && LiteralAt(text, s, JobStatuses[k])
    ensures JobStatusAt(text, p) == Some(JobStatuses[k])
  {
    LabelledAtUnique(text, p, JobStatusLabels, s);
  }

  /** Group 2 of `(Description|About Me|Summary):?\s*(.*)` matched at `p`:
      after the label, the optional colon and all the whitespace (line breaks
      included), the rest of that line. */
  function DescriptionAt(text: string, p: nat): (r: Option<string>)
    ensures r.Some? ==> exists s: nat ::
      LabelledAt(text, p, DescriptionLabels, s) && LiteralAt(text, s, r.value)
      && (s + |r.value| == |text| || text[s + |r.value|] == '\n')
    ensures r.Some? ==> '\n' !in r.value && (r.value == "" || !IsSpace(r.value[0]))
    ensures r.Some? <==> p <= |text| && exists k :: 0 <= k < |DescriptionLabels| && LiteralAt(text, p, DescriptionLabels[k])
  {
    if p > |text| then None
    else
      var s := AfterLabel(text, p, DescriptionLabels);
      if s.None? then None
      else
        var d := text[s.value..LineEnd(text, s.value)];
        assert LiteralAt(text, s.value, d);
        Some(d)
  }

  /** After a description label, the colon and the whitespace, the
      description is the line up to the next line break or the end. */
  lemma DescriptionIsRestOfLine(text: string, p: nat, s: nat, e: nat)
    requires p <= |text| && LabelledAt(text, p, DescriptionLabels, s) && s <= e <= |text|
    requires forall j :: s <= j < e ==> text[j] != '\n'
    requires e == |text| || text[e] == '\n'
    ensures DescriptionAt(text, p) == Some(text[s..e])
  {
    LabelledAtUnique(text, p, DescriptionLabels, s);
  }

  /** An abstract pattern: where a match that starts at a position ends, if
      the pattern matches there. Stands for the email and phone patterns. */
  type Matcher = (string, nat) -> Option<nat>

  /** Group 0 of the abstract pattern `m` matched at `p`: the matched span of
      the text. An end outside the text is no match. */
  function SpanAt(m: Matcher, text: string, p: nat): (r: Option<string>)
    ensures r.Some? ==> LiteralAt(text, p, r.value)
  {
    if p <= |text| && m(text, p).Some? && p <= m(text, p).value <= |text|
    then Some(text[p..m(text, p).value])
    else None
  }

  /** The first start position, from `from` on, at which `at` matches. */
  function FirstMatch(at: (string, nat) -> Option<string>, text: string, from: nat): (r: Option<nat>)
    ensures r.Some? ==> from <= r.value <= |text| && at(text, r.value).Some?
    ensures r.Some? ==> forall q :: from <= q < r.value ==> at(text, q).None?
    ensures r.None? ==> forall q :: from <= q <= |text| ==> at(text, q).None?
    decreases |text| + 1 - from
  {
    if from > |text| then None
    else if at(text, from).Some? then Some(from)
    else FirstMatch(at, text, from + 1)
  }

  /** `re.search`: the match at the leftmost position where there is one. */
  function Search(at: (string, nat) -> Option<string>, text: string): (r: Option<string>)
    ensures r.Some? ==> exists q :: 0 <= q <= |text| && at(text, q) == r && forall q' :: 0 <= q' < q ==> at(text, q').None?
    ensures r.None? ==> forall q :: 0 <= q <= |text| ==> at(text, q).None?
  {
    var q := FirstMatch(at, text, 0);
    if q.None? then None else at(text, q.value)
  }
}
