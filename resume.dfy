/** `extract_resume_details`: the page texts are joined into one text and
    five independent searches fill the five fields of the profile, each with
    its match or the sentinel "Not Found". */
module Resume {
  import opened Common
  import opened Patterns

  /** The value of a field whose pattern matches nowhere in the text. */
  const NotFound: string := "Not Found"

  /** The dictionary `extract_resume_details` returns. */
  datatype Profile = Profile(name: string, email: string, phone: string, jobStatus: string, description: string)

  /** The page texts one after the other, with nothing in between. */
  function Concat(pages: seq<string>): string
  {
    if |pages| == 0 then "" else Concat(pages[..|pages| - 1]) + pages[|pages| - 1]
  }

  /** A field holds what a search for `at` finds: the match at the leftmost
      position where `at` matches, or the sentinel when it matches nowhere. */
  ghost predicate LeftmostOrNotFound(at: (string, nat) -> Option<string>, text: string, field: string)
  {
    || (field == NotFound && forall q :: 0 <= q <= |text| ==> at(text, q).None?)
    || (exists q :: 0 <= q <= |text| && at(text, q) == Some(field)
         && forall q' :: 0 <= q' < q ==> at(text, q').None?)
  }

  /** One field of the dictionary: group of the search's match, or the
      sentinel when the search finds nothing. */
  function Field(at: (string, nat) -> Option<string>, text: string): (field: string)
    ensures LeftmostOrNotFound(at, text, field)
  {
    var found := Search(at, text);
    if found.Some? then found.value else NotFound
  }

  /** The email (or phone) search: its span at the leftmost position where
      the abstract pattern matches. */
  function SpanField(m: Matcher, text: string): (field: string)
    ensures LeftmostOrNotFound((t: string, p: nat) => SpanAt(m, t, p), text, field)
    ensures field == NotFound || exists q :: LiteralAt(text, q, field)
  {
    var at := (t: string, p: nat) => SpanAt(m, t, p);
    assert Search(at, text).Some? ==> exists q :: LiteralAt(text, q, Search(at, text).value) by {
      if Search(at, text).Some? {
        var q :| 0 <= q <= |text| && at(text, q) == Search(at, text);
        assert LiteralAt(text, q, Search(at, text).value);
      }
    }
    Field(at, text)
  }

  /** The five searches and the dictionary built from them. `email` and
      `phone` stand for the email and phone patterns. */
  function ExtractFields(text: string, email: Matcher, phone: Matcher): (profile: Profile)
    ensures profile.name == NotFound || NameShaped(profile.name)
    ensures profile.email == NotFound || exists q :: LiteralAt(text, q, profile.email)
    ensures profile.phone == NotFound || exists q :: LiteralAt(text, q, profile.phone)
    ensures profile.jobStatus == NotFound || profile.jobStatus in JobStatuses
    ensures profile.description == NotFound
         || ('\n' !in profile.description && (profile.description == "" || !IsSpace(profile.description[0])))
  {
    Profile(Field(NameAt, text), SpanField(email, text), SpanField(phone, text),
            Field(JobStatusAt, text), Field(DescriptionAt, text))
  }

  /** `extract_resume_details`: add up the page texts, then extract. */
  method ExtractResumeDetails(pages: seq<string>, email: Matcher, phone: Matcher) returns (details: Profile)
    ensures details == ExtractFields(Concat(pages), email, phone)
  {
    var text := "";
    for i := 0 to |pages|
      invariant text == Concat(pages[..i])
    {
      assert pages[..i + 1][..i] == pages[..i];
      text := text + pages[i];
    }
    assert pages[..|pages|] == pages;
    details := ExtractFields(text, email, phone);
  }

  /** Concatenation distributes over splitting the page list. */
  lemma {:induction false} ConcatAppend(a: seq<string>, b: seq<string>)
    ensures Concat(a + b) == Concat(a) + Concat(b)
  {
    if |b| == 0 {
      assert a + b == a;
    } else {
      var n := |b| - 1;
      assert (a + b)[..|a + b| - 1] == a + b[..n];
      ConcatAppend(a, b[..n]);
    }
  }

  /** The text is exactly as long as the pages together: no separator. */
  lemma {:induction false} ConcatLength(pages: seq<string>)
    ensures |Concat(pages)| == TotalLength(pages)
  {
    if |pages| > 0 {
      ConcatAppend([pages[0]], pages[1..]);
      assert [pages[0]] + pages[1..] == pages;
      assert [pages[0]][..0] == [];
      ConcatLength(pages[1..]);
    }
  }

  /** Page `i` sits in the text right after the pages before it, unchanged. */
  lemma PageInPlace(pages: seq<string>, i: nat)
    requires i < |pages|
    ensures LiteralAt(Concat(pages), |Concat(pages[..i])|, pages[i])
  {
    assert pages == pages[..i] + [pages[i]] + pages[i + 1..];
    ConcatAppend(pages[..i] + [pages[i]], pages[i + 1..]);
    ConcatAppend(pages[..i], [pages[i]]);
    assert [pages[i]][..0] == [];
  }

  /** Once a description label occurs anywhere, the description search
      succeeds: the `.*` group accepts even an empty rest of line. */
  lemma DescriptionFoundWhenLabelled(text: string, p: nat, k: nat)
    requires p <= |text| && k < |DescriptionLabels| && LiteralAt(text, p, DescriptionLabels[k])
    ensures Search(DescriptionAt, text).Some?
  {
    assert DescriptionAt(text, p).Some?;
  }

  /** The sentinel is itself name-shaped: a resume reading "Name: Not Found"
      gives the same name field as one with no name at all. */
  lemma SentinelReadsAsName()
    ensures Search(NameAt, "Name: Not Found") == Some(NotFound)
  {
    var text := "Name: Not Found";
    SentinelTextParts(text);
    NameSearchFinds(text, 0, 6, 9, 15);
  }

  /** The pieces of "Name: Not Found" that the name pattern reads. */
  lemma SentinelTextParts(text: string)
    requires text == "Name: Not Found"
    ensures LabelledAt(text, 0, NameLabels, 6) && CapitalisedPairAt(text, 6, 9, 15)
    ensures text[6..15] == NotFound
  {
    assert LiteralAt(text, 0, NameLabels[0]);
    assert AllSpace(text, 5, 6);
  }

  /** The text "Full Name: Jane Doe" gets the name "Jane Doe" through the
      second label alternative; it has no job-status or description label,
      so those two fields are "Not Found", whatever the email and phone
      patterns do. */
  lemma FullNameLabelExample(email: Matcher, phone: Matcher)
    ensures ExtractFields("Full Name: Jane Doe", email, phone).name == "Jane Doe"
    ensures ExtractFields("Full Name: Jane Doe", email, phone).jobStatus == NotFound
    ensures ExtractFields("Full Name: Jane Doe", email, phone).description == NotFound
  {
    var text := "Full Name: Jane Doe";
    JaneDoeTextParts(text);
    NameOnlyFields(text, 11, 15, 19, email, phone);
  }

  /** A text that opens with a name label and two capitalised words, and has
      no job-status or description label anywhere, gets those two words as
      its name and "Not Found" for job status and description. */
  lemma NameOnlyFields(text: string, s: nat, e1: nat, e2: nat, email: Matcher, phone: Matcher)
    requires LabelledAt(text, 0, NameLabels, s) && CapitalisedPairAt(text, s, e1, e2)
    requires forall q: nat, k :: 0 <= k < |JobStatusLabels| ==> !LiteralAt(text, q, JobStatusLabels[k])
    requires forall q: nat, k :: 0 <= k < |DescriptionLabels| ==> !LiteralAt(text, q, DescriptionLabels[k])
    ensures ExtractFields(text, email, phone).name == text[s..e2]
    ensures ExtractFields(text, email, phone).jobStatus == NotFound
    ensures ExtractFields(text, email, phone).description == NotFound
  {
    NameSearchFinds(text, 0, s, e1, e2);
    NoJobStatusLabelNoField(text);
    NoDescriptionLabelNoField(text);
  }

  /** Without a job-status label anywhere, the job-status search finds
      nothing. */
  lemma NoJobStatusLabelNoField(text: string)
    requires forall q: nat, k :: 0 <= k < |JobStatusLabels| ==> !LiteralAt(text, q, JobStatusLabels[k])
    ensures Search(JobStatusAt, text).None?
  {
    forall q | 0 <= q <= |text| ensures JobStatusAt(text, q).None? {
      assert forall k :: 0 <= k < |JobStatusLabels| ==> !LiteralAt(text, q, JobStatusLabels[k]);
    }
  }

  /** Without a description label anywhere, the description search finds
      nothing. */
  lemma NoDescriptionLabelNoField(text: string)
    requires forall q: nat, k :: 0 <= k < |DescriptionLabels| ==> !LiteralAt(text, q, DescriptionLabels[k])
    ensures Search(DescriptionAt, text).None?
  {
    forall q | 0 <= q <= |text| ensures DescriptionAt(text, q).None? {
      assert forall k :: 0 <= k < |DescriptionLabels| ==> !LiteralAt(text, q, DescriptionLabels[k]);
    }
  }

  /** The pieces of "Full Name: Jane Doe" that the patterns read. */
  lemma JaneDoeTextParts(text: string)
    requires text == "Full Name: Jane Doe"
    ensures LabelledAt(text, 0, NameLabels, 11) && CapitalisedPairAt(text, 11, 15, 19)
    ensures text[11..19] == "Jane Doe"
    ensures forall q: nat, k :: 0 <= k < |JobStatusLabels| ==> !LiteralAt(text, q, JobStatusLabels[k])
    ensures forall q: nat, k :: 0 <= k < |DescriptionLabels| ==> !LiteralAt(text, q, DescriptionLabels[k])
  {
    assert text[0..4][0] == 'F';
    assert LiteralAt(text, 0, NameLabels[1]);
    assert AllSpace(text, 10, 11);
    NoLiteralWithPrefix(text, JobStatusLabels[0]);
    NoLiteralWithPrefix(text, JobStatusLabels[1]);
    NoLiteralWithPrefix(text, DescriptionLabels[0]);
    NoLiteralWithPrefix(text, DescriptionLabels[1]);
    NoLiteralWithPrefix(text, DescriptionLabels[2]);
  }

  /** A word whose first two letters never stand side by side in the text,
      where the word would fit, occurs nowhere in it. */
  lemma NoLiteralWithPrefix(text: string, w: string)
    requires |w| >= 2
    requires forall j :: 0 <= j && j + |w| <= |text| ==> text[j] != w[0] || text[j + 1] != w[1]
    ensures forall q: nat :: !LiteralAt(text, q, w)
  {
    forall q: nat ensures !LiteralAt(text, q, w) {
      if q + |w| <= |text| {
        assert text[q..q + |w|][0] == text[q] && text[q..q + |w|][1] == text[q + 1];
      }
    }
  }

  /** A name label at `p` followed by two capitalised words, with no name
      match at any earlier position, makes those two words the name field. */
  lemma NameSearchFinds(text: string, p: nat, s: nat, e1: nat, e2: nat)
    requires p <= |text| && LabelledAt(text, p, NameLabels, s) && CapitalisedPairAt(text, s, e1, e2)
    requires forall q :: 0 <= q < p ==> NameAt(text, q).None?
    ensures Search(NameAt, text) == Some(text[s..e2])
  {
    NameFoundAfterLabel(text, p, s, e1, e2);
    var m := FirstMatch(NameAt, text, 0);
    assert m.Some? && m.value == p;
  }
}
