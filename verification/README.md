# Finance paper digest — Dafny model

This project models the pure logic of `src/digest.py`. That script fetches
the day's most-cited finance papers from OpenAlex and writes a dated digest:
a JSON record, a Markdown document and an HTML page. The model covers the
parts that are plain functions over strings, lists and maps:

- rebuilding an abstract from OpenAlex's inverted index (`_extract_abstract`);
- trimming topic and author names to the first five entries;
- the heuristic Chinese summary (`_simple_zh_summary`);
- normalising one raw work into a `Paper`, with defaults for every field;
- the citation filter and the cap on the number of papers in `build_digest`;
- the per-paper lines, links and `N/A` cells of the Markdown and HTML
  renderers, including `html.escape`.

Modules, one per file:

| module | file | models |
|---|---|---|
| `Optional` | optional.dfy | absent-or-null JSON values; Python truthiness and `x or default`; `[x for x in xs if x]` |
| `Sequences` | sequences.dfy | subsequence and prefix relations; `enumerate`; appending loops |
| `Text` | text.dfy | `str.join`, `str.split`, `str.strip`, `str.replace`, `str(int)` |
| `HtmlEscape` | html_escape.dfy | `html.escape` with `quote=True`, and its inverse |
| `AbstractIndex` | abstract_index.dfy | `_extract_abstract` |
| `Names` | names.dfy | `_topic_names` and the author comprehension |
| `Summary` | summary.dfy | `_simple_zh_summary` |
| `Papers` | papers.dfy | `Paper`, the raw work record, and the loop body of `fetch_openalex_papers` |
| `Render` | render.dfy | `_render_markdown`, and the cards and body line of `_render_html` |
| `Digest` | digest.dfy | the filter and cap of `build_digest`, and what one run writes |

Strings are `seq<char>` with one `char` per Unicode code point. This is how
Python's `len` and slicing count, so the 180/177 limits of the summary mean
the same thing in both.

The inverted index is an ordered sequence of `Posting(word, positions)`
entries. The order stands for the iteration order of the decoded JSON
object. When two entries claim the same position, the later entry wins.
The model states exactly this and nothing stronger.

The code reads the index from the `InvertedIndex` member of the
`abstract_inverted_index` value, and its test (tests/test_digest.py:8) hands
`_extract_abstract` a value of that shape. The model does the same.

What `src/digest.py` does and does not do, which the model follows:

- there is no fallback source, no external summariser, no
  keep-latest-when-empty policy, no alert file and no `source`/`source_used`
  field;
- the citation filter applies to every paper;
- a `null` `primary_location` or `source` raises instead of giving
  `"Unknown"` (see "Left out").

## Model

| member | source | states |
|---|---|---|
| `AbstractIndex.ExtractAbstract` | src/digest.py:39-54 | a missing, null or empty index (or `InvertedIndex` member) gives `""`; otherwise the result is the reference reconstruction: the surviving words in position order, joined by single spaces |
| `AbstractIndex.FillSlots` | src/digest.py:46-53 | the slot list ends with length largest-position + 1, and each slot holds the word of the last entry that claims it (None if unclaimed) |
| `AbstractIndex.WriteEntry` | src/digest.py:48-53 | writing one entry's positions extends the invariant "slots = last claims of the entries done so far" by that entry |
| `AbstractIndex.WriteOne` | src/digest.py:49-53 | one claim grows the list to the new largest position when needed and then overwrites that slot, preserving the invariant |
| `AbstractIndex.MaxIn` | src/digest.py:46-51 | the running maximum starts at -1 and bounds every position of an entry |
| `AbstractIndex.MaxPos` | src/digest.py:46-51 | the largest claimed position (or -1) bounds every position of every entry |
| `AbstractIndex.MaxPosAttained` | src/digest.py:50-52 | a non-negative maximum is a position some entry actually claims |
| `AbstractIndex.UnclaimedIffNone` | src/digest.py:47-53 | a slot stays empty exactly when no entry lists its position |
| `AbstractIndex.LastWriterWins` | src/digest.py:48-53 | a filled slot holds the word of an entry claiming it, and no later entry claims it |
| `AbstractIndex.NoClaimBeyondMax` | src/digest.py:50-52 | positions above the current maximum are unclaimed, so the slots added by `extend` start empty |
| `AbstractIndex.ClaimedPositionHasSlot` | src/digest.py:49-53 | every claimed position lies inside the slot list and its slot is filled |
| `AbstractIndex.DenseIndexRoundTrip` | src/digest.py:54 | when every position up to the largest holds a non-empty word without spaces, splitting the text on spaces gives, at each position k, the word that claimed k |
| `AbstractIndex.ThreeWordExample` | tests/test_digest.py:7-9 | `{"hello":[0],"world":[1],"finance":[2]}` rebuilds to `"hello world finance"` |
| `Optional.KeepTruthy` | src/digest.py:54 | as many values are kept as the input has present non-empty ones, and each kept value is non-empty |
| `Optional.KeepTruthyPositions` | src/digest.py:54 | nothing is merged: the truthy value at input position k is kept at position "truthy values before k", so a repeated value is kept as often as it occurs |
| `Optional.KeepTruthyPosition` | src/digest.py:54 | the same for one truthy position k |
| `Optional.KeepTruthyMembers` | src/digest.py:54 | every kept value occurs in the input, and every present non-empty input value is kept |
| `Optional.KeepTruthyIsSubsequence` | src/digest.py:54 | the kept values keep their input order |
| `Optional.KeepTruthyAll` | src/digest.py:54 | when every value is truthy, the k-th kept value is the k-th input |
| `Optional.OrElse` | src/digest.py:168 | `x or default`: a present non-empty value is kept, anything else becomes the default |
| `Names.FirstNames` | src/digest.py:57-63 | at most five names, as many as there are present non-empty names among the first five entries; each is one of those; the named entry at position k lands at position "named entries before k", so repeated names are kept as often as they occur; source order is kept |
| `Names.TopicNames` | src/digest.py:57-63 | `_topic_names`: the same facts over the concepts' display names (count, membership, position of each named concept, order) |
| `Names.AuthorList` | src/digest.py:169-173 | the author comprehension: the same facts over the first five authorships' author display names |
| `Names.OnlyFirstFiveCount` | src/digest.py:59 | entries after the fifth never change the result |
| `Summary.NormalizeAbstract` | src/digest.py:67 | character by character the stripped abstract with each newline turned into a space; hence one line, no surrounding whitespace, and empty exactly when the abstract is all whitespace |
| `Summary.Shorten` | src/digest.py:68-69 | at most 180 characters; short text unchanged; longer text becomes its first 177 characters then `"..."` |
| `Summary.ShortenIdempotent` | src/digest.py:68-69 | clipping an already clipped clause changes nothing |
| `Summary.AbstractClause` | src/digest.py:67-69 | the abstract clause is at most 180 characters, one line, and empty exactly when the abstract is blank |
| `Summary.TopicText` | src/digest.py:71 | with no topics the label is `"金融经济学"`; otherwise it starts with the first topic, contains each of the first three, and, when none of those contains `"、"`, splits on `"、"` into exactly the first three topics |
| `Summary.SimpleZhSummary` | src/digest.py:66-74 | the summary starts with the opening and the title, contains the title, the first (up to three) topics joined by `"、"` and each of them (or the default label when there are none), ends with the abstract clause when the abstract is not blank and with the read-more phrase when it is, and its length is bounded independently of the abstract |
| `Summary.AssetPricingExample` | tests/test_digest.py:12-15 | the test's summary contains `"Asset Pricing"` and `"Finance"` |
| `Papers.DoiUrl` | src/digest.py:176-177 | empty exactly when the DOI is missing or empty; otherwise starts with `http`; an `http…` DOI is kept, a bare one gets `https://doi.org/` |
| `Papers.DoiUrlIdempotent` | src/digest.py:177 | canonicalising a canonical DOI URL again changes nothing |
| `Papers.Normalize` | src/digest.py:167-197 | title defaults to `"Untitled"`, venue to `"Unknown"`, date, id and citations to `""`, `""` and 0, and present title, venue, date, id and citation count are kept; the DOI URL is `DoiUrl` of the DOI (an `http…` DOI kept, a bare one prefixed with `https://doi.org/`, `""` when missing or empty); at most five authors and topics; the abstract is the rebuilt text; the summary is the heuristic summary of the final title, abstract and topics, and contains the title |
| `Papers.NormalizeAll` | src/digest.py:166-199 | one paper per raw work, in order, each the normalisation of its work |
| `Sequences.MapSeq` | src/digest.py:166-199 | the appending loop yields `f` of each element, same length, same order |
| `Digest.Qualifying` | src/digest.py:205 | as many papers are kept as meet the threshold, and every kept paper meets it |
| `Digest.QualifyingPositions` | src/digest.py:205 | nothing is merged: the qualifying paper at fetched position k is kept at position "qualifying papers before k", so a paper fetched twice is kept twice |
| `Digest.QualifyingPosition` | src/digest.py:205 | the same for one qualifying position k |
| `Digest.QualifyingMembers` | src/digest.py:205 | every kept paper was fetched, and every fetched paper meeting the threshold is kept |
| `Digest.QualifyingIsSubsequence` | src/digest.py:205 | the filter keeps the fetched order |
| `Digest.Select` | src/digest.py:205 | at most `max_papers` papers, each meeting the threshold, forming a prefix of the filtered list, as long as the cap allows |
| `Digest.SelectIsSubsequence` | src/digest.py:205 | the selected papers appear in the fetched order |
| `Digest.SelectIdempotent` | src/digest.py:205 | selecting again with the same configuration changes nothing |
| `Digest.BuildDigest` | src/digest.py:202-232 | the JSON `count` equals the number of selected papers and is at most `max_papers`; both documents render exactly the selected papers; the `latest` copies equal the dated documents |
| `Render.MarkdownLinks` | src/digest.py:80-84 | one link per non-empty URL and none for an empty one, DOI first |
| `Render.LinksCell` | src/digest.py:93 | `N/A` exactly when neither URL is set; both links are separated by one space |
| `Render.ListCell` | src/digest.py:88-92 | the author/topic cell of lines 88 and 92 (and of the HTML cards at lines 112 and 114): `N/A` for an empty list, otherwise the names joined by `", "`, each name occurring in it |
| `Render.MarkdownBlock` | src/digest.py:85-97 | a paper contributes ten lines: `## {idx}. {title}`, the authors cell (`N/A` when empty), venue, date, citation count, the topics cell, the links cell, a blank line, the summary, a blank line, each after its label |
| `Render.MarkdownLines` | src/digest.py:78-98 | four header lines, then ten lines per paper |
| `Render.MarkdownPaperLines` | src/digest.py:79-98 | the ten lines of the i-th paper are its block numbered i + 1 |
| `Render.MarkdownNumbering` | src/digest.py:79-95 | the i-th paper is headed `## {i+1}. {title}`; its author and topic lines show `N/A` when the list is empty and the comma-joined list otherwise; its links line shows its links cell; its summary line carries its summary |
| `Render.HtmlLinks` | src/digest.py:105-107 | no anchor for an empty URL; `" | "` only between two anchors |
| `Render.LinksAgree` | src/digest.py:80-107 | the Markdown links (lines 80-84) and the HTML anchors (lines 105-107) agree: Markdown shows `N/A` exactly when the HTML links paragraph is empty |
| `Render.CardTitleIsEscaped` | src/digest.py:104-111 | the i-th card opens with its number i + 1 and the escaped title; the escaped title has no markup character and unescapes to the title |
| `Render.CardEscapesFields` | src/digest.py:112-116 | a card shows the authors cell, venue, date, topics cell and summary in escaped form, and contains the links paragraph |
| `HtmlEscape.Escape` | src/digest.py:105-116 | escaped text has no `<`, `>`, `"` or `'` and is never shorter |
| `HtmlEscape.UnescapeEscape` | src/digest.py:105-116 | escaping loses nothing: unescaping gives the text back |
| `HtmlEscape.EscapePlain` | src/digest.py:105-116 | text without `&` or markup characters passes through unchanged |
| `Text.Join` | src/digest.py:54 | `str.join`: empty for no parts; starts with the first part and ends with the last; its length is the parts' lengths plus one separator between neighbours |
| `Text.JoinContainsPart` | src/digest.py:71 | every part occurs in the joined string |
| `Text.SplitJoin` | src/digest.py:54 | splitting on the separator recovers the parts when none contains it |
| `Text.Strip` | src/digest.py:67 | `str.strip`: an infix with only whitespace cut on either side, not starting or ending with whitespace, empty exactly when the input is all whitespace |
| `Text.ReplaceChar` | src/digest.py:67 | `replace` of one character: same length, each matching character replaced, the rest kept |
| `Text.NatToStringRoundTrip` | src/digest.py:91 | the decimal rendering of a count reads back as the count |

## Left out

- HTTP and JSON decoding (`urlopen`, `urlencode`, the query filters, the 30-second timeout, the `URLError` soft failure): the model starts from decoded works.
- Filesystem and clock: directory creation, the file writes, and `dt.date.today()` are left out. The run date is a string parameter. `Digest.Outputs` records what the dated and `latest` files would hold; only the Markdown and HTML are mirrored to `latest`.
- `main`: environment parsing, its defaults (12 papers, 0 citations) and the printed line are left out. `Digest.BuildDigest` takes the configuration as a parameter.
- HTML page boilerplate: the `<head>`, the CSS, the `<h1>` and the closing tags are fixed text. They are left out. `Render.HtmlBody` covers the dated count line and the cards.
- A present but `null` `primary_location`, `source` or author object: Python's `.get(..., {})` returns `None` and the next `.get` raises. The model's `None` means an absent key only.
- A present but `null` `id` or `cited_by_count`: Python stores `None` in the paper (and the citation filter then raises). The model reads both as absent, giving `""` and 0.
- A `null` `authorships` or `concepts` list raises in Python. The model's list fields are empty when absent.
- Negative positions in the inverted index and a negative `max_papers` use Python's negative indexing. Preconditions exclude both.
- JSON values of an unexpected type (a non-string title, a non-integer position) are not modelled.
- Python's `html.escape` is modelled for the five characters it replaces. The HTML page's `<title>` escaping of the date is part of the left-out boilerplate.
