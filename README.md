# Tag harvester and resume field extractor, modelled in Dafny

This project models the logic of `getClassAndId.py`, a small scraping
backend with two independent pipelines.

- **Tag harvester** (`scrape_web`). It walks every element of a parsed HTML page in
  document order. It skips the tags `script`, `metadata`, `link`, `style`,
  `svg` and `path`. It keeps only elements that carry both a `class` and an `id`
  attribute, and emits one row `(tag, class, id, text)` per kept element. The
  class cell is the class list joined by single spaces, or empty (`None`)
  when the list is empty. The rows are written to `classAndIdTable.csv`, and
  that name is returned. A failure comes back as its message. The
  `/scrape-url/` endpoint reports success exactly when the returned string
  ends with `.csv`.
- **Resume field extractor** (`extract_resume_details`). It joins the page
  texts with no separator. It then runs five independent leftmost searches:
  name, email, phone, job status and description. Each field holds its
  pattern's designated group, or the literal `"Not Found"`.

Files:

- `common.dfy`: module `Common`. `Option` (Python's `None`), `Result` (an exception message on failure), `TotalLength`.
- `harvester.dfy`: module `Harvester`. Elements and rows. `Harvest` is the specification of the table. `CollectRecords` is the `for`/`continue`/`append` loop, proved equal to `Harvest`. `ScrapeWeb` handles the success and failure paths. Also the lemmas on order, membership and the class cell.
- `patterns.dfy`: module `Patterns`. Python's `\s`, `[A-Z]` and `[a-z]`. Exact leftmost matchers for the name, job-status and description patterns. An abstract matcher stands in for the email and phone patterns. `re.search` is the leftmost scan `Search`.
- `resume.dfy`: module `Resume`. The page-concatenation loop, the five-field dictionary, and lemmas about both.
- `scrape_reply.dfy`: module `ScrapeReply`. The `.csv` success test of `/scrape-url/`.

How the regular expressions are modelled. Python's `re` backtracks. For the
three patterns modelled exactly, backtracking can never change the result:

- The alternatives of each label group begin with different letters, so at most one fits at a position.
- The optional `:` and the greedy `\s*` are followed by a token that can match neither a colon nor whitespace, or by `.*`, which never fails.
- The greedy `[a-z]+` is followed by `\s` or by the end of the pattern.

So each matcher takes the colon when it is present, takes the whole whitespace
run, and takes the whole lower-case run. `.` without DOTALL stops at `'\n'`.
`\s` is the set of characters Python's `str.isspace` accepts.

Points where the code behaves differently from what a reader might expect, and which the model follows:

- The description is the rest of one line, not the rest of the text, because `.*` stops at `'\n'`. It does start after every whitespace character, line breaks included.
- A row's `id` is never absent, because rows are emitted only when the id is present.
- An empty class list gives an empty class cell (`None`), not `""`.
- Page concatenation is part of `extract_resume_details` itself.

## Model

| member | source | states |
|---|---|---|
| `Harvester.Harvest` | getClassAndId.py:27-46 | The table has no more rows than the page has elements. No row has a tag in the ignore list. |
| `Harvester.KeptPositions` | getClassAndId.py:30-39 | Lists, in strictly increasing order, the positions of the elements that are not ignored and have both a class and an id. It lists every such position and no other. |
| `Harvester.HarvestFromKeptPositions` | getClassAndId.py:30-46 | The number of rows equals the number of kept elements. Row k is the row of the k-th kept element, in document order. Its tag, id and text are copied unchanged, and its class is the class cell of the element's class list. |
| `Harvester.ElementContribution` | getClassAndId.py:31-46 | Element i contributes exactly one row if it is kept and none otherwise. That row sits between the rows of the elements before it and the rows of the elements after it. |
| `Harvester.HarvestAppend` | getClassAndId.py:30-46 | Harvesting two runs of elements one after the other gives the two tables one after the other. |
| `Harvester.ClassCell` | getClassAndId.py:43 | The class cell is `None` exactly when the class list is empty, even though the attribute is present. When the tokens have no spaces, splitting a present cell at single spaces gives back the class list. |
| `Harvester.SplitJoin` | getClassAndId.py:43 | For a non-empty list of tokens without spaces, splitting the joined cell at single spaces gives back the list in source order. The join is exactly the tokens with one separator between each pair. |
| `Harvester.JoinLength` | getClassAndId.py:43 | The joined cell is as long as the tokens together, plus one separator between each pair of consecutive tokens. |
| `Harvester.ScriptWithAttributesExcluded` | getClassAndId.py:17-46 | The page `<div class="a b" id="x">Hi</div><script class="c" id="y">ignored</script>` gives the single row (div, "a b", x, Hi). The script element has both attributes but is ignored. |
| `Harvester.CollectRecords` | getClassAndId.py:27-46 | The loop with `continue` and `append` returns exactly `Harvest` of the elements. |
| `Harvester.ScrapeWeb` | getClassAndId.py:21-55 | For a page that was fetched, it returns `classAndIdTable.csv` and writes exactly `Harvest` of the elements. For a failure, it returns the failure's message and writes nothing. |
| `ScrapeReply.ScrapeUrl` | getClassAndId.py:103-111 | A fetched page is always reported as "Scraping successful, CSV saved!" with the file `classAndIdTable.csv`, and its table is written. A failure writes nothing. A failure whose message does not end with `.csv` is reported as an error carrying that message. A failure whose message ends with `.csv` is reported as "Scraping successful, CSV saved!" with the message as the file name. |
| `ScrapeReply.FailureCanReadAsSaved` | getClassAndId.py:108-109 | Any returned message that ends with `.csv`, a failure's included, is reported as "Scraping successful, CSV saved!" with the message as the file name, just as the table's own name is. |
| `Patterns.FirstWordAt` | getClassAndId.py:69 | An alternation tried in order: the chosen alternative fits at the position and no earlier one does. None means no alternative fits. |
| `Patterns.SkipSpaces` | getClassAndId.py:70 | `\s*` ends after a run that is all whitespace, at the end of the text or at a non-whitespace character. |
| `Patterns.LowerRunEnd` | getClassAndId.py:66 | `[a-z]*` ends after a run that is all lower-case, at the end of the text or at a character that is not lower-case. |
| `Patterns.LineEnd` | getClassAndId.py:70 | `.*` ends after a run with no `'\n'`, at the end of the text or at a `'\n'`. |
| `Patterns.AfterLabel` | getClassAndId.py:66-70 | There is a match exactly when one of the labels occurs at the position. The rest of the pattern then starts where the whitespace run that follows the first fitting label, and its colon when there is one, ends: every character in between is whitespace, and the next one is not. |
| `Patterns.LabelledAtUnique` | getClassAndId.py:66-70 | Any position where a label, its optional colon and a maximal whitespace run end is the position `AfterLabel` returns. |
| `Patterns.CapitalisedWordEnd` | getClassAndId.py:66 | `[A-Z][a-z]+` matches exactly when an upper-case letter is followed by a lower-case letter. It then ends after all the lower-case letters that follow, at the end of the text or at a character that is not lower-case. |
| `Patterns.NameAt` | getClassAndId.py:66 | A name found at a position is the text read right after the label, colon and whitespace there: a capitalised word, one whitespace character, and a second capitalised word running to the end of its lower-case letters. It has the name shape. |
| `Patterns.NameFoundAfterLabel` | getClassAndId.py:66 | When a name label, optional colon and whitespace are followed by two capitalised words separated by one whitespace character, the name pattern matches there and gives exactly those two words. |
| `Patterns.NameSpanShaped` | getClassAndId.py:66 | Two capitalised words in the text, separated by one whitespace character, form a string of the name shape, with the whitespace where they meet. |
| `Patterns.JobStatusAt` | getClassAndId.py:69 | A job status found at a position is one of "Employed", "Unemployed" or "Freelancing", read in the text right after the label, colon and whitespace there. |
| `Patterns.JobStatusFoundAfterLabel` | getClassAndId.py:69 | When a job-status label, optional colon and whitespace are followed by one of the three status words, the pattern matches there and gives that word. |
| `Patterns.DescriptionAt` | getClassAndId.py:70 | The description pattern matches at a position exactly when a description label occurs there. What it finds is read in the text right after the label, colon and whitespace, and runs to the end of the text or to a `'\n'`. It has no `'\n'` and is empty or starts with a non-whitespace character. |
| `Patterns.DescriptionIsRestOfLine` | getClassAndId.py:70 | After a description label, colon and whitespace, the description is the whole rest of that line. |
| `Patterns.SpanAt` | getClassAndId.py:67-68 | What an abstract (email or phone) pattern finds at a position is the text's substring starting at that position. |
| `Patterns.FirstMatch` | getClassAndId.py:73-77 | Returns the first position, from the starting point on, at which the pattern matches. None means it matches at no position up to the end of the text. |
| `Patterns.Search` | getClassAndId.py:73-77 | `re.search` returns the match at a position where the pattern matches and where it matches at no earlier position. None means it matches nowhere. |
| `Resume.Field` | getClassAndId.py:80-86 | A field is either the group of the leftmost match, or "Not Found" when the pattern matches at no position of the text. |
| `Resume.SpanField` | getClassAndId.py:82-83 | The email and phone fields are the leftmost match or "Not Found". A found value occurs in the text. |
| `Resume.ExtractFields` | getClassAndId.py:73-86 | Each of the five fields is "Not Found" or has its pattern's shape: the name is name-shaped; email and phone occur in the text; the job status is one of the three words; the description has no line break and is empty or starts with a non-whitespace character. |
| `Resume.ExtractResumeDetails` | getClassAndId.py:59-88 | The page-accumulation loop followed by the dictionary gives exactly `ExtractFields` of the concatenated pages. |
| `Resume.ConcatAppend` | getClassAndId.py:61-63 | Concatenating two runs of pages gives the two texts one after the other. |
| `Resume.ConcatLength` | getClassAndId.py:61-63 | The text is exactly as long as all pages together, so no separator is inserted. |
| `Resume.PageInPlace` | getClassAndId.py:61-63 | Page i appears unchanged in the text, immediately after the text of the pages before it. |
| `Resume.DescriptionFoundWhenLabelled` | getClassAndId.py:70 | Once any description label occurs in the text, the description search succeeds, even when the rest of the line is empty. |
| `Resume.NameSearchFinds` | getClassAndId.py:66-81 | When a name label at some position is followed (after its colon and whitespace) by two capitalised words, and the pattern matches at no earlier position, the name search gives those two words. |
| `Resume.SentinelReadsAsName` | getClassAndId.py:66 | "Name: Not Found" yields the name "Not Found", so the sentinel cannot be told apart from a found name. |
| `Resume.FullNameLabelExample` | getClassAndId.py:66-85 | The text "Full Name: Jane Doe" gives the name field "Jane Doe", through the second label alternative, and "Not Found" for job status and description. |
| `Resume.NoJobStatusLabelNoField` | getClassAndId.py:69-76 | With no job-status label in the text, the job-status search finds nothing. |
| `Resume.NoDescriptionLabelNoField` | getClassAndId.py:70-77 | With no description label in the text, the description search finds nothing. |
| `Resume.NameOnlyFields` | getClassAndId.py:66-85 | A text that starts with a name label and two capitalised words and has no job-status or description label gets those words as its name, and "Not Found" as its job status and description. |

## Left out

- Fetching the page (`requests.get`) and parsing it with BeautifulSoup are left out. The model takes the parsed elements, in document order, as input. A failure anywhere before the table is written is the `Err` message given to `ScrapeWeb`.
- `tag.get_text(strip=True)` is left out: its text flattening belongs to the parser library. An element's text is a given field.
- Writing the CSV with pandas is left out. The model returns the rows that would be written, in order, or `None` when nothing is written. An exception raised by the write itself is not modelled separately.
- The catch-all `except Exception` is modelled only as an arbitrary message string, returned and then classified by the `.csv` test.
- Opening the PDF with pdfplumber is left out. The page texts are given as strings. A page whose extracted text is `None` is not modelled.
- The email and phone patterns are not modelled exactly. They rely on lazy quantifiers, `\b` and backtracking, so they are abstract matchers that give the end of a match starting at a position.
- `Patterns.SpanAt`: a match end that an abstract matcher places outside the text or before its start is read as no match. The real regex engine never produces such an end.
- The FastAPI and pydantic endpoint wiring, `os.path.join`, `os.path.exists` and the HTTP 404 for a missing resume file are left out. They are transport and file-system glue. The `.csv` test of `/scrape-url/` is the one piece kept.
