/** The class/id tag harvester of `scrape_web`: every element of the parsed
    page, in document order, is either skipped or turned into one table row. */
module Harvester {
  import opened Common

  /** The tags never harvested, in the order the source lists them. */
  const IgnoreTags: seq<string> := ["script", "metadata", "link", "style", "svg", "path"]

  /** The name of the table file `scrape_web` writes and returns on success. */
  const CsvFileName: string := "classAndIdTable.csv"

  /** One element of the parsed page: its tag name, its `class` attribute as
      the parser's list of class tokens (None when the attribute is absent),
      its `id` attribute (None when absent) and its flattened, stripped text. */
  datatype Element = Element(name: string, classList: Option<seq<string>>, id: Option<string>, text: string)

  /** One row of the table: columns tag, class, id, text. The class cell is
      None (an empty cell) when the class list is empty. */
  datatype Record = Record(tag: string, classes: Option<string>, id: string, text: string)

  /** Python's `' '.join(parts)`. */
  function Join(parts: seq<string>): string
  {
    if |parts| == 0 then ""
    else if |parts| == 1 then parts[0]
    else parts[0] + " " + Join(parts[1..])
  }

  /** Python's `s.split(' ')`: cut at every single space, keeping empty pieces. */
  function SplitOnSpace(s: string): (parts: seq<string>)
    ensures |parts| >= 1
  {
    if |s| == 0 then [""]
    else
      var rest := SplitOnSpace(s[1..]);
      if s[0] == ' ' then [""] + rest
      else [[s[0]] + rest[0]] + rest[1..]
  }

  /** The class cell: the class tokens joined by single spaces, or None when
      the list is empty (Python treats an empty list as false). */
  function ClassCell(classList: seq<string>): (cell: Option<string>)
    ensures cell.None? <==> |classList| == 0
    ensures cell.Some? && (forall k :: 0 <= k < |classList| ==> ' ' !in classList[k]) ==>
      SplitOnSpace(cell.value) == classList
  {
    if |classList| > 0 then
      assert (forall k :: 0 <= k < |classList| ==> ' ' !in classList[k]) ==>
        SplitOnSpace(Join(classList)) == classList by {
        if forall k :: 0 <= k < |classList| ==> ' ' !in classList[k] {
          SplitJoin(classList);
        }
      }
      Some(Join(classList))
    else None
  }

  /** An element yields a row: its tag is not ignored and both attributes are present. */
  predicate Kept(e: Element)
  {
    e.name !in IgnoreTags && e.classList.Some? && e.id.Some?
  }

  /** The row a kept element yields. */
  function ToRecord(e: Element): Record
    requires Kept(e)
  {
    Record(e.name, ClassCell(e.classList.value), e.id.value, e.text)
  }

  /** What one element contributes to the table: one row or none. */
  function Emit(e: Element): seq<Record>
  {
    if Kept(e) then [ToRecord(e)] else []
  }

  /** The table `scrape_web` builds from the elements in document order. */
  function Harvest(elems: seq<Element>): (rows: seq<Record>)
    ensures |rows| <= |elems|
    ensures forall k :: 0 <= k < |rows| ==> rows[k].tag !in IgnoreTags
  {
    if |elems| == 0 then []
    else Harvest(elems[..|elems| - 1]) + Emit(elems[|elems| - 1])
  }

  /** The positions of the kept elements, in increasing order: an
      independent description of which elements the table comes from. */
  function KeptPositions(elems: seq<Element>): (ps: seq<nat>)
    ensures forall k :: 0 <= k < |ps| ==> ps[k] < |elems| && Kept(elems[ps[k]])
    ensures forall k, l :: 0 <= k < l < |ps| ==> ps[k] < ps[l]
    ensures forall i :: 0 <= i < |elems| && Kept(elems[i]) ==> i in ps
  {
    if |elems| == 0 then []
    else
      var n := |elems| - 1;
      KeptPositions(elems[..n]) + (if Kept(elems[n]) then [n] else [])
  }

  /** The table is the kept elements' rows, in document order, and nothing else. */
  lemma {:induction false} HarvestFromKeptPositions(elems: seq<Element>)
    ensures |Harvest(elems)| == |KeptPositions(elems)|
    ensures forall k :: 0 <= k < |Harvest(elems)| ==>
      Harvest(elems)[k] == ToRecord(elems[KeptPositions(elems)[k]])
  {
    if |elems| > 0 {
      var n := |elems| - 1;
      HarvestFromKeptPositions(elems[..n]);
    }
  }

  /** Harvesting distributes over concatenation of element sequences. */
  lemma {:induction false} HarvestAppend(a: seq<Element>, b: seq<Element>)
    ensures Harvest(a + b) == Harvest(a) + Harvest(b)
  {
    if |b| == 0 {
      assert a + b == a;
    } else {
      var n := |b| - 1;
      assert (a + b)[..|a + b| - 1] == a + b[..n];
      HarvestAppend(a, b[..n]);
    }
  }

  /** Each element contributes exactly its own row (if kept) at its own
      place: the rows before it come from the elements before it and the
      rows after it from the elements after it. */
  lemma ElementContribution(elems: seq<Element>, i: nat)
    requires i < |elems|
    ensures Harvest(elems) == Harvest(elems[..i]) + Emit(elems[i]) + Harvest(elems[i + 1..])
    ensures |Emit(elems[i])| == (if Kept(elems[i]) then 1 else 0)
  {
    assert elems == elems[..i] + [elems[i]] + elems[i + 1..];
    HarvestAppend(elems[..i] + [elems[i]], elems[i + 1..]);
    HarvestAppend(elems[..i], [elems[i]]);
    assert [elems[i]][..0] == [];
  }

  /** When no class token holds a space, splitting the class cell at spaces
      gives back the class tokens, in order: the join loses nothing. */
  lemma {:induction false} SplitJoin(parts: seq<string>)
    requires |parts| > 0
    requires forall k :: 0 <= k < |parts| ==> ' ' !in parts[k]
    ensures SplitOnSpace(Join(parts)) == parts
  {
    if |parts| == 1 {
      SplitSpaceless(parts[0], "");
      assert parts[0] + "" == parts[0];
    } else {
      SplitJoin(parts[1..]);
      SplitSpaceless(parts[0], Join(parts[1..]));
    }
  }

  /** Splitting a space-free word followed by a space: the word, then the
      split of what follows; a space-free word alone splits to itself. */
  lemma {:induction false} SplitSpaceless(w: string, rest: string)
    requires ' ' !in w
    ensures SplitOnSpace(w + " " + rest) == [w] + SplitOnSpace(rest)
    ensures SplitOnSpace(w) == [w]
  {
    if |w| > 0 {
      SplitSpaceless(w[1..], rest);
      assert (w + " " + rest)[1..] == w[1..] + " " + rest;
      assert [w[0]] + w[1..] == w;
    } else {
      assert w + " " + rest == " " + rest;
    }
  }

  /** The cell holds one character per token character plus one separator
      between consecutive tokens. */
  lemma {:induction false} JoinLength(parts: seq<string>)
    requires |parts| > 0
    ensures |Join(parts)| == TotalLength(parts) + |parts| - 1
  {
    if |parts| > 1 {
      JoinLength(parts[1..]);
    }
  }

  /** The markup `<div class="a b" id="x">Hi</div><script class="c" id="y">ignored</script>`
      gives the single row (div, "a b", x, Hi): the script element has both
      attributes but its tag is ignored. */
  lemma ScriptWithAttributesExcluded()
    ensures Harvest([Element("div", Some(["a", "b"]), Some("x"), "Hi"),
                     Element("script", Some(["c"]), Some("y"), "ignored")])
         == [Record("div", Some("a b"), "x", "Hi")]
  {
    var elems := [Element("div", Some(["a", "b"]), Some("x"), "Hi"),
                  Element("script", Some(["c"]), Some("y"), "ignored")];
    assert "script" == IgnoreTags[0];
    assert "div" !in IgnoreTags;
    assert Join(["a", "b"]) == "a" + " " + Join(["b"]) == "a b";
    assert elems[..1] == [elems[0]] && elems[..1][..0] == [];
    assert Harvest(elems[..1]) == [Record("div", Some("a b"), "x", "Hi")];
  }

  /** The harvesting loop of `scrape_web`: skip ignored tags, keep elements
      with both a class and an id, append their row. */
  method CollectRecords(elems: seq<Element>) returns (data: seq<Record>)
    ensures data == Harvest(elems)
  {
    data := [];
    var i := 0;
    while i < |elems|
      invariant 0 <= i <= |elems|
      invariant data == Harvest(elems[..i])
    {
      var tag := elems[i];
      assert elems[..i + 1][..i] == elems[..i];
      i := i + 1;
      if tag.name in IgnoreTags {
        continue;
      }
      var classAttr := tag.classList;
      var idAttr := tag.id;
      if classAttr.Some? && idAttr.Some? {
        var classes := if |classAttr.value| > 0 then Some(Join(classAttr.value)) else None;
        data := data + [Record(tag.name, classes, idAttr.value, tag.text)];
      }
    }
    assert elems[..|elems|] == elems;
  }

  /** `scrape_web`: on a page that was fetched and parsed, harvest it, write
      the table and return the table's file name; a failure of the fetch
      comes back as its message and nothing is written. */
  method ScrapeWeb(page: Result<seq<Element>>) returns (reply: string, written: Option<seq<Record>>)
    ensures page.Ok? ==> reply == CsvFileName && written == Some(Harvest(page.value))
    ensures page.Err? ==> reply == page.message && written == None
  {
    match page {
      case Err(msg) =>
        reply, written := msg, None;
      case Ok(elems) =>
        var data := CollectRecords(elems);
        reply, written := CsvFileName, Some(data);
    }
  }
}
