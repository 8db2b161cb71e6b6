# dmzj-txt2pdf in Dafny

A model of the conversion core of `dmzj_txt2pdf.py`. The script turns the
`.txt` novel fragments a DMZJ download leaves under a root folder into PDFs
and merges them by folder name. The model covers:

- **Decoding a fragment** (`_txt_to_pdf`, step 1). The codecs of the
  preference list `("utf-8", "gbk", "big5", "utf-16")` are tried in order,
  and the first that decodes the whole buffer wins. Only when every one
  fails is `chardet`'s guess used (or `"utf-8"` when it has none), decoded
  with replacement characters. Lossy UTF-8 is the last resort. The loop
  with its `break` is the method `Encoding.DecodeFragment`.
- **Laying the cleaned text out** (`_txt_to_pdf`, step 3). The text is split
  with `str.splitlines()`, and `[" "]` is used when there are no lines. A
  blank line only moves the cursor down. A non-blank line is cut into chunks
  of `max_chars` characters, and each chunk is drawn at the cursor before
  the cursor moves down a line. Below the top margin the page is closed,
  the font re-applied and the cursor reset. The canvas is a class
  (`Pdf.Canvas`) whose methods change its pages, open page and font. The
  loop over lines is the method `Layout.Render`, proved to save exactly the
  document of the function `Layout.Layout`. The inner chunk loop is the
  method `Layout.DrawParagraph`, proved to leave the cursor that
  `Layout.DrawChunks` gives for the line's `Layout.Chunks`. The layout
  properties are proved about those functions.
- **The folder key** `_folder_key_of`: `"_".join(name.split("_")[:depth])`,
  with Python's `split` (empty fields kept) and slicing (negative depths
  count from the end).
- **The driver** `convert_dmzj_txts_to_pdf`:
  - The walk loop converts every file whose lower-cased name ends in
    `".txt"` to `out/<relative path>.with_suffix(".pdf")`, fills `pdf_of_txt`
    and appends to `created`.
  - For a group level of 1 or 2, the loop over
    `groupby(sorted(pdf_of_txt, key=...), key=...)` appends each group's
    PDFs into `out/<key>.pdf` and appends that path to `created`.
  - `sorted` is modelled as a stable insertion sort and `groupby` as
    maximal runs of equal keys. `<` on `str` is lexicographic by code point.

The file system is reduced to what the driver observes:

- the listing `os.walk` yields, in its order;
- the bytes of each fragment, as a function of its path;
- the documents written, as a map from path to document, where a later
  write replaces an earlier one.

A merged document is the concatenation of the pages its members' PDFs held
when the merge read them.

Files:

- `wrappers.dfy`: `Option`.
- `pytext.dfy`: the Python string operations used (`splitlines`, `strip`,
  `split`/`join`, `lower().endswith`, `<`).
- `paths.dfy`: `pathlib` names and suffixes.
- `encoding.dfy`: the codec probe.
- `canvas.dfy`: the canvas.
- `layout.dfy`: chunking and pagination.
- `grouping.dfy`: the key, the stable sort and `groupby`.
- `convert.dfy`: `_txt_to_pdf` and the driver.

## Model

| member | source | states |
|---|---|---|
| Encoding.FirstDecodable | dmzj_txt2pdf.py:66-71 | The index found is that of a codec that decodes the buffer, and every earlier codec fails. No index is found exactly when every preferred codec fails. |
| Encoding.GuessOrUtf8 | dmzj_txt2pdf.py:75 | `detect(raw)["encoding"] or "utf-8"`: the guess when it is a non-empty name, and `"utf-8"` when there is no guess or it is empty; never empty. |
| Encoding.Fallback | dmzj_txt2pdf.py:72-78 | The fallback never reports a probed codec. The guess is used exactly when chardet imports and decoding the guess does not raise. The text is then that decode, and otherwise it is lossy UTF-8. |
| Encoding.Resolve | dmzj_txt2pdf.py:64-78 | The decoded text and its branch: a preferred codec exactly when one decodes the whole buffer, the first such codec, with its decode as the text. Otherwise the fallback's result. |
| Encoding.DecodeFragment | dmzj_txt2pdf.py:64-78 | A preferred codec is used exactly when one decodes the whole buffer. It is the first such codec, and the text is its decode. Otherwise the result is the fallback's. |
| Pdf.Canvas.constructor | dmzj_txt2pdf.py:89 | A new canvas has no pages, an empty open page and reportlab's default font. |
| Pdf.Canvas.SetFont | dmzj_txt2pdf.py:94 | Sets the font and marks the open page as started. Pages and lines are unchanged. |
| Pdf.Canvas.DrawString | dmzj_txt2pdf.py:104 | Appends exactly one line, at the given position in the current font, to the open page and marks the page started. Closed pages and the font are unchanged. |
| Pdf.Canvas.ShowPage | dmzj_txt2pdf.py:107 | Closes the open page onto the page list, opens an empty one and resets the font to the default. |
| Pdf.Canvas.Save | dmzj_txt2pdf.py:115 | The saved document is the closed pages, plus the open page when anything was put on it. Afterwards nothing is pending; when a page was closed the open page is empty in the default font, otherwise the open page and font are unchanged. |
| PyText.SplitLines | dmzj_txt2pdf.py:96 | `splitlines()` gives no lines exactly for the empty string, and no line contains a line boundary. |
| PyText.SplitLinesCons | dmzj_txt2pdf.py:96 | A boundary-free line followed by one boundary (`"\r\n"`, or one boundary character that is not a `"\r"` before `"\n"`) gives that line, even when empty, in front of the lines of the rest. With `SplitLinesSingle` and `SplitLinesEmpty` this fixes every line and the line count. |
| PyText.GapAt | dmzj_txt2pdf.py:96 | In `line + gap + rest` the first boundary is at the end of `line`, and it ends where `rest` starts. |
| PyText.FirstBreakAt | dmzj_txt2pdf.py:96 | A boundary right after a boundary-free line is the first one. |
| PyText.SplitLinesSingle | dmzj_txt2pdf.py:96 | Non-empty text without a boundary is one line. |
| PyText.SplitLinesContent | dmzj_txt2pdf.py:96 | The lines, concatenated, are the text with its line boundaries removed: no other character is lost. |
| PyText.SplitLinesEmpty | dmzj_txt2pdf.py:96 | The empty text has no lines, so the `or [" "]` branch is taken. |
| PyText.TrailingNewline | dmzj_txt2pdf.py:96 | A newline after a last character that is not a boundary adds no empty last line. |
| PyText.VisibleBlank | dmzj_txt2pdf.py:98 | `not para.strip()` holds exactly when the line has no non-whitespace character. |
| PyText.LineBreakIsSpace | dmzj_txt2pdf.py:98 | Every line boundary of `splitlines` is whitespace for `strip`. |
| PyText.Prefix | dmzj_txt2pdf.py:123 | `s[:n]` is a prefix of `s`, and for `n >= 0` its length is `min(n, len(s))`. |
| PyText.Split | dmzj_txt2pdf.py:123 | `split("_")` always gives at least one field. |
| PyText.SplitNoSeparator | dmzj_txt2pdf.py:123 | A string without the separator splits into itself alone. |
| PyText.SplitFieldsFree | dmzj_txt2pdf.py:123 | No field of `split(sep)` contains `sep`. |
| PyText.Join | dmzj_txt2pdf.py:123 | `sep.join(parts)` starts with the first part. |
| PyText.JoinSplit | dmzj_txt2pdf.py:123 | `sep.join(s.split(sep)) == s`. |
| PyText.SplitJoin | dmzj_txt2pdf.py:123 | Splitting the join of separator-free fields gives back those fields. |
| PyText.JoinFieldsPrefix | dmzj_txt2pdf.py:123 | Joining the first `k` fields of a split gives a prefix of the string. |
| PyText.Below | dmzj_txt2pdf.py:162 | `a < b` on `str`: a proper prefix is below the longer string, and no string is below one of its own prefixes. |
| PyText.BelowLexicographic | dmzj_txt2pdf.py:162 | `Below` is exactly the lexicographic order by code point: a proper prefix, or equal up to a first difference where `a` has the smaller character. |
| PyText.LexicographicTail | dmzj_txt2pdf.py:162 | With equal first characters, lexicographically ordered strings have ordered tails. |
| PyText.LexicographicTailBack | dmzj_txt2pdf.py:162 | With equal first characters, ordered tails order the strings. |
| PyText.BelowIrreflexive | dmzj_txt2pdf.py:162 | No string sorts below itself. |
| PyText.BelowTransitive | dmzj_txt2pdf.py:162 | String `<` is transitive. |
| PyText.BelowTotal | dmzj_txt2pdf.py:162 | Two strings differ exactly when one sorts below the other, and never both ways. |
| PyText.BelowNotBelow | dmzj_txt2pdf.py:162 | A string below `b` is below every string that is not below `b`. |
| Paths.RFind | dmzj_txt2pdf.py:154 | `rfind` gives the last index holding the character, or -1 when there is none. |
| Paths.Suffix | dmzj_txt2pdf.py:154 | A `pathlib` suffix is non-empty exactly when the last dot of the name is neither its first nor its last character. It then starts at that dot and runs to the end of the name. |
| Paths.WithSuffix | dmzj_txt2pdf.py:154 | `with_suffix` replaces the old suffix: the result is as long as the stem plus the new suffix. |
| Paths.WithSuffixParts | dmzj_txt2pdf.py:154 | The result is the stem, which followed by the old suffix gives back the name, and then the new suffix. |
| Paths.IsTxtName | dmzj_txt2pdf.py:152 | `name.lower().endswith(".txt")` holds exactly when the name ends in a dot, `t` or `T`, `x` or `X`, and `t` or `T`. |
| Paths.TxtTail | dmzj_txt2pdf.py:152 | Lowering the last four characters gives ".txt" exactly for those characters. |
| Paths.PdfName | dmzj_txt2pdf.py:154 | `with_suffix(".pdf")`: the PDF name ends in ".pdf". |
| Paths.PdfNameStem | dmzj_txt2pdf.py:154 | What precedes that ".pdf" is the stem: followed by the old suffix it gives back the name. |
| Paths.PdfNameOfTxt | dmzj_txt2pdf.py:152-154 | For a picked fragment, `with_suffix(".pdf")` replaces the last four characters with ".pdf". A bare ".txt" (in any case) has no suffix and becomes ".txt.pdf". |
| Paths.PdfNameNotTxt | dmzj_txt2pdf.py:152 | No name ending in ".pdf" passes the `.txt` test. |
| Paths.PdfNameEnds | dmzj_txt2pdf.py:152-154 | Every PDF name ends in ".pdf", so the driver's output is never taken for a fragment. |
| Layout.Chunks | dmzj_txt2pdf.py:103 | The slices `para[i:i + m]` for `i` in `range(0, len(para), m)`: none exactly for the empty line, each non-empty and at most `m` long. |
| Layout.ChunksConcat | dmzj_txt2pdf.py:103 | The chunks of a line, concatenated, are exactly the line. |
| Layout.ChunkSizes | dmzj_txt2pdf.py:103 | Every chunk is non-empty and at most `max_chars` long, and all but the last are exactly `max_chars` long. |
| Layout.ChunkCount | dmzj_txt2pdf.py:103 | There are no chunks exactly for the empty line. Otherwise there are `ceil(len / max_chars)` of them. |
| Layout.ChunkAt | dmzj_txt2pdf.py:103 | Chunk `k` is `para[k*m:(k+1)*m]` and starts inside the line. |
| Layout.BreakIfLow | dmzj_txt2pdf.py:106-113 | The page is closed exactly when the cursor is below the top margin: the document then gains one empty open page and the cursor is at the top line. Otherwise nothing changes. |
| Layout.LayParagraph | dmzj_txt2pdf.py:96-113 | After one line and the check after it, the cursor is never below the top margin (for a geometry with `top_margin <= height - top_margin`). |
| Layout.Layout | dmzj_txt2pdf.py:89-115 | The document saved for the text always has at least one page, the open page the font was set on. |
| Layout.Render | dmzj_txt2pdf.py:89-115 | The canvas loop over the lines, with its cursor and page breaks, saves exactly the document `Layout` describes. |
| Layout.LayLine | dmzj_txt2pdf.py:98-113 | One pass of the loop over lines: the canvas and cursor end as `LayParagraph` gives, and the font stays set. |
| Layout.DrawChunkOn | dmzj_txt2pdf.py:104-109 | Drawing one chunk on the canvas ends as `DrawChunk` gives, and the font stays set. |
| Layout.DrawParagraph | dmzj_txt2pdf.py:102-109 | The chunk loop, stepping by `max_chars`, draws the line's chunks in order with a page-break check after each. The font stays set and the page stays started. |
| Layout.BreakIfLowOn | dmzj_txt2pdf.py:106-113 | Below the top margin the page is closed, the font re-applied and the cursor reset to the top line. Otherwise nothing changes. |
| Layout.BreakKeepsLines | dmzj_txt2pdf.py:106-113 | A page break draws nothing. |
| Layout.DrawChunkLines | dmzj_txt2pdf.py:104-109 | Drawing a chunk adds exactly that chunk to the strings drawn. |
| Layout.DrawChunksLines | dmzj_txt2pdf.py:103-109 | Drawing a line's chunks adds exactly those chunks, in order. |
| Layout.LayParagraphsLines | dmzj_txt2pdf.py:96-113 | Blank lines add no drawn string, and the other lines add their chunks in order. |
| Layout.DrawnChunksConcat | dmzj_txt2pdf.py:96-105 | The chunks of the non-blank lines, concatenated, are those lines concatenated. |
| Layout.LayoutContent | dmzj_txt2pdf.py:96-105 | The strings drawn across all pages are the chunks of the non-blank lines in order. Joined, they are the non-blank lines in their original order. |
| Layout.NonBlankVisible | dmzj_txt2pdf.py:96-99 | Skipping blank lines loses no visible character. |
| Layout.VisibleWithoutBreaks | dmzj_txt2pdf.py:96 | Removing line boundaries loses no visible character. |
| Layout.NothingVisibleDropped | dmzj_txt2pdf.py:96-113 | The drawn strings, joined, hold exactly the non-whitespace characters of the cleaned text, in order. |
| Layout.EmptyText | dmzj_txt2pdf.py:96-113 | Empty text is laid out as the single blank line `" "`. Nothing is drawn, and the page stays empty unless that one line overflows it. |
| Layout.StartPlaced | dmzj_txt2pdf.py:92 | The cursor starts at `height - top_margin`, on an empty page. |
| Layout.BreakPlaced | dmzj_txt2pdf.py:106-113 | After the check, the cursor is back between the margins. |
| Layout.DrawChunkPlaced | dmzj_txt2pdf.py:104-109 | Drawing a chunk keeps every line at `x_margin` in the page font, between the margins, and one line height below the one before. |
| Layout.DrawChunksPlaced | dmzj_txt2pdf.py:103-109 | The cursor invariant holds across a line's chunks. |
| Layout.LayParagraphsPlaced | dmzj_txt2pdf.py:96-113 | The cursor invariant holds across the loop over lines. |
| Layout.LayoutPlacement | dmzj_txt2pdf.py:92-113 | Every drawn line is at `x_margin` in the configured font, with `top_margin <= y <= height - top_margin`. On each page every line is at least one line height below the previous one. |
| Grouping.FolderKey | dmzj_txt2pdf.py:118-123 | `"_".join(name.split("_")[:depth])`: a folder name without an underscore is its own key at every level of 1 or more, and has the empty key at other levels. |
| Grouping.FolderKeyFields | dmzj_txt2pdf.py:118-123 | For depth >= 1, splitting the key again gives `name.split("_")[:depth]`. |
| Grouping.FolderKeyIsPrefix | dmzj_txt2pdf.py:118-123 | The key is a prefix of the folder name. |
| Grouping.PrefixOfPrefix | dmzj_txt2pdf.py:123 | `s[:d2][:d1] == s[:d1]` for `0 <= d1 <= d2`. |
| Grouping.KeyRefines | dmzj_txt2pdf.py:118-123 | Folder names with equal depth-`d2` keys have equal depth-`d1` keys for every `d1 <= d2`. |
| Grouping.Filter | dmzj_txt2pdf.py:162 | Selecting by key keeps only elements with that key and never lengthens the list. |
| Grouping.InFilter | dmzj_txt2pdf.py:162 | An element is selected for a key exactly when it is in the list and has that key. |
| Grouping.FilterAppend | dmzj_txt2pdf.py:162 | Selecting by key distributes over concatenation. |
| Grouping.Insert | dmzj_txt2pdf.py:162 | Inserting adds exactly the new element, as a multiset. |
| Grouping.SortByKey | dmzj_txt2pdf.py:162 | `sorted` returns a permutation of its input. |
| Grouping.InsertSorted | dmzj_txt2pdf.py:162 | Inserting into a key-ordered list keeps it key-ordered. |
| Grouping.SortByKeySorted | dmzj_txt2pdf.py:162 | The result of `sorted` is ordered by key. |
| Grouping.FilterBelowFirst | dmzj_txt2pdf.py:162 | In a key-ordered list no element has a key below the first element's. |
| Grouping.InsertFilter | dmzj_txt2pdf.py:162 | Inserting goes after every element with the same key. |
| Grouping.SortByKeyStable | dmzj_txt2pdf.py:162 | Stability: for every key, the elements with that key keep their input order. |
| Grouping.GroupBy | dmzj_txt2pdf.py:163 | `groupby` yields non-empty runs, and none exactly for the empty input. |
| Grouping.GroupByRuns | dmzj_txt2pdf.py:163 | The runs, concatenated, are the input. Every element of a run has the run's key, and the first run starts with the first element. |
| Grouping.GroupByAscending | dmzj_txt2pdf.py:162-163 | On sorted input the run keys strictly increase. |
| Grouping.AboveEveryRun | dmzj_txt2pdf.py:162-163 | A key below the first element of sorted input is below every run key. |
| Grouping.GroupByFilter | dmzj_txt2pdf.py:162-163 | On sorted input each run is exactly the input's elements with its key, in order. |
| Grouping.InConcat | dmzj_txt2pdf.py:163 | An element is in the concatenated runs exactly when it is in one of them. |
| Grouping.MergePlan | dmzj_txt2pdf.py:162-163 | `groupby(sorted(...))` gives non-empty groups, and none exactly for no input. |
| Grouping.MergePlanSpec | dmzj_txt2pdf.py:162-163 | The groups partition the input. Each group is non-empty and holds exactly the elements with its key, in input order. Keys strictly increase, and every element is in exactly one group. |
| Grouping.PlanRefines | dmzj_txt2pdf.py:161-163 | Every group at level `d2` lies inside one group at level `d1 <= d2`: raising the level only splits groups. |
| Convert.TxtToPdf | dmzj_txt2pdf.py:48-115 | `_txt_to_pdf` writes the layout of the cleaned, decoded bytes. Every visible character of the cleaned text is drawn. |
| Convert.InTxtsIn | dmzj_txt2pdf.py:151-152 | A folder's converted files are exactly its files whose lower-cased name ends in ".txt". |
| Convert.InFound | dmzj_txt2pdf.py:150-152 | The run converts exactly the ".txt" files of the walk, in any case. |
| Convert.TxtPaths | dmzj_txt2pdf.py:153 | One `Path(dirpath) / fname` per fragment, in order. |
| Convert.PdfPaths | dmzj_txt2pdf.py:154-155 | One `out / rel.with_suffix(".pdf")` per fragment, in order. |
| Convert.TxtPathInjective | dmzj_txt2pdf.py:153 | Different fragments have different paths. |
| Convert.MergedPaths | dmzj_txt2pdf.py:167 | One `out / f"{key}.pdf"` per group, in plan order. |
| Convert.ConvertOne | dmzj_txt2pdf.py:153-158 | Converting one fragment writes its rendering to its PDF path and records that path under its `.txt` path in `pdf_of_txt`. |
| Convert.MergeOne | dmzj_txt2pdf.py:164-170 | Merging one group appends its merged path to `created`, writes there the pages of its members' PDFs in group order, and leaves `pdf_of_txt` alone. |
| Convert.MergeAll | dmzj_txt2pdf.py:161-170 | Merging adds one path to `created` per group and leaves `pdf_of_txt` alone. |
| Convert.Convert | dmzj_txt2pdf.py:143-172 | After the whole run the keys of `pdf_of_txt` are listed exactly once, in `order`, and every PDF it names was written. `created` starts with the individual PDFs in walk order and is only those when the level is not 1 or 2. |
| Convert.ConvertFile | dmzj_txt2pdf.py:153-158 | A fragment's PDF is written with its rendering, recorded in `pdf_of_txt` (a new key goes last) and appended to `created`. |
| Convert.ConvertFolder | dmzj_txt2pdf.py:151-158 | The inner loop converts the folder's ".txt" files in listing order and nothing else. |
| Convert.ConvertWalk | dmzj_txt2pdf.py:150-158 | The walk loop converts every fragment found, in walk order. |
| Convert.AppendGroup | dmzj_txt2pdf.py:164-166 | The writer holds the pages of the group's PDFs, one after another in group order. |
| Convert.PlanMembers | dmzj_txt2pdf.py:162-166 | Every member of a group is a key of `pdf_of_txt`, so `pdf_of_txt[txt]` never fails. |
| Convert.PlanHeads | dmzj_txt2pdf.py:163-167 | Every group is non-empty and starts with a key of `pdf_of_txt`. |
| Convert.MergeByKey | dmzj_txt2pdf.py:161-170 | The merge loop writes each group's concatenated pages to `<key>.pdf` and appends that path, in plan order. |
| Convert.ConvertDmzjTxtsToPdf | dmzj_txt2pdf.py:143-172 | The returned list and the files left behind are those of `Convert`. Merging runs only for a level of 1 or 2. |
| Convert.Dedup | dmzj_txt2pdf.py:157 | The dict's keys are exactly the paths inserted. |
| Convert.DedupDistinct | dmzj_txt2pdf.py:157 | The dict's keys are distinct, and are the insertion order itself when no path repeats. |
| Convert.ConvertAllShape | dmzj_txt2pdf.py:146-158 | After step 1 (`ConvertAll` over the fragments found, from the empty state), `created` is the fragments' PDF paths in walk order. The dict's keys are their paths, first occurrences only. Every recorded PDF has been written. |
| Convert.MergeAllCreated | dmzj_txt2pdf.py:161-170 | Step 2 appends exactly the merged paths to `created` and leaves `pdf_of_txt` alone. |
| Convert.CreatedList | dmzj_txt2pdf.py:146-172 | The returned list is the individual PDFs in walk order. For level 1 or 2 they are followed by one `<key>.pdf` per group in ascending key order. |
| Convert.PlanGroups | dmzj_txt2pdf.py:161-170 | Each group holds exactly the fragments with its key, in discovery order. Keys strictly ascend, and every converted fragment is in some group. The merged paths are distinct. |
| Convert.MergedPathsDistinct | dmzj_txt2pdf.py:167 | Different keys give different merged paths. |
| Convert.DistinctTxtPaths | dmzj_txt2pdf.py:153-155 | Fragments with different PDF paths have different paths. |
| Convert.RecordedStep | dmzj_txt2pdf.py:153-158 | Converting a new fragment records it against its PDF, which holds its document. Earlier records are untouched. |
| Convert.ConvertAllDistinct | dmzj_txt2pdf.py:150-158 | Without PDF path clashes, each fragment is recorded against its PDF, which holds its own rendering. |
| Convert.AppendedAgree | dmzj_txt2pdf.py:166 | A merge reads only the group members' PDFs. |
| Convert.AppendedDocuments | dmzj_txt2pdf.py:164-169 | When every member's PDF holds its rendering, the merged document is the members' renderings in group order. |
| Convert.MergeAllKeeps | dmzj_txt2pdf.py:161-170 | Merging writes only the merged paths, and every other file keeps its contents. |
| Convert.MergeAllContents | dmzj_txt2pdf.py:161-170 | When no merged path is another group's or a member's PDF, each merged file holds its group's PDFs as they were after step 1. |
| Convert.NotMerged | dmzj_txt2pdf.py:155-167 | Without collisions no individual PDF is overwritten by a merge. |
| Convert.PdfOfMember | dmzj_txt2pdf.py:157-166 | A recorded fragment path maps to its own PDF, which holds its rendering. |
| Convert.PlanFilter | dmzj_txt2pdf.py:162-163 | Each group is exactly the dict keys with its folder key, in insertion order. |
| Convert.PlanPathsDistinct | dmzj_txt2pdf.py:167 | The merged paths of a plan are distinct. |
| Convert.MergedContents | dmzj_txt2pdf.py:161-170 | Without collisions each `<key>.pdf` holds its members' renderings in discovery order. |
| Convert.WrittenDocuments | dmzj_txt2pdf.py:150-170 | Without collisions, every fragment's PDF holds its rendering. Each `<key>.pdf` holds, in discovery order, the renderings of exactly the fragments with that key. |

## Left out

- `_clean_fragment` and BeautifulSoup's `get_text("\n")` (lines 42-45, 81-82): the markup stripper is a parameter, `Env.clean`. `_clean_fragment` is never called.
- Python's codecs and `chardet` (lines 68, 74-78) are parameters. Codecs are functions returning `None` where Python raises `UnicodeDecodeError`. `Chardet.Missing` stands for the `ImportError` branch. Only the order of attempts and which result is kept are modelled.
- reportlab internals and font registration (lines 31-38, 89, 94): the canvas is the class `Pdf.Canvas` over pages of drawn lines. Fonts are names with sizes, and `showPage` resets the font to reportlab's default.
- Float geometry (lines 90-92, 102): coordinates are integers. The A4 height 841.89 is taken as 841, which moves every line down by 0.89 points but keeps 51 lines per page. `int((595.28 - 84) / 6.6) = 77` is the constant `maxChars`.
- Layout.Render: requires `maxChars >= 1`. The source computes `max_chars` from the font size, and `range` raises `ValueError` when that is 0, which no default font size reaches. The same requirement is on the layout functions and lemmas.
- `os.walk`, `mkdir` and file reads and writes (lines 64, 88, 144, 150): the walk is the listing it yields, in its order. A fragment's bytes are `Env.read`. Written files are a map from path to document. I/O errors, which end the run with an exception in the source, are not modelled.
- `PdfWriter` (lines 164-169): a merged document is the concatenation of its members' page lists.
- Convert.ConvertDmzjTxtsToPdf: the rendering of a fragment is `Renderer(env)`, `_txt_to_pdf` with its default arguments. The run function `Convert` takes that renderer as a parameter, and the lemmas about written contents hold for any renderer.
- Convert.WrittenDocuments: requires that no write replaces another (`NoCollisions`). Two fragments can share a PDF path (`a.txt` and `a.TXT` in one folder), or an individual PDF can lie where a `<key>.pdf` is written. Then the later write wins, as the map models, but the contents lemma is not stated for that case. Paths are compared exactly, as on a case-sensitive file system.
- Convert.MergedContents: requires `NoCollisions` for the same reason, and compares paths exactly.
- Convert.MergedPathsDistinct: paths are compared exactly, as on a case-sensitive file system. `runner.py` targets Windows, where paths differing only in letter case name one file: at level 1 the folders `ABC_1` and `abc_2` have the different keys `ABC` and `abc`, yet both merges write the same file there. `NoCollisions`, `PlanPathsDistinct` and the contents lemmas do not cover that case.
- Encoding.Fallback: a guessed codec name Python does not know (chardet can name codecs such as "EUC-TW" that Python lacks) makes `raw.decode(enc_guess, errors="replace")` raise `LookupError`. Line 77 catches only `ImportError` and `UnicodeDecodeError`, so that error ends the whole run. The model has no such outcome: `Codecs.replacing` returns text or `None`, `None` takes the lossy UTF-8 branch, and `Convert` always completes.
- The `encoding` argument (lines 131, 196): it is accepted and never used.
- The command line and printing (lines 176-206), and `runner.py`, which only calls the public function with fixed paths.
- `str.lower()` is modelled only for ASCII `A`-`Z` (`PyText.LowerAscii`). No other character lowers to one of `.`, `t` or `x`, so the ".txt" test is exact.

## Behaviour notes

What `dmzj_txt2pdf.py` does and does not do, as the model has it:

- Conversions run one after another in walk order. There is no worker pool and no barrier before merging.
- Lines are cut into chunks of a fixed number of characters. Rendered width is not measured, and the paragraph is not filled greedily.
- Equal keys keep the order in which the walk found the fragments, because `sorted` is stable. They are not ordered by path.
- Intermediate PDFs are never deleted and no directory is pruned.
- A failed conversion raises and ends the run. It is not isolated from the other fragments.
- Group levels other than 1 and 2 disable merging through the explicit `1 <= group_level <= 2` test, including 0 and negative levels.
