# Notion2QuizPdf page-title sanitiser, in Dafny

Notion2QuizPdf exports Notion pages to HTML and turns them into question and
answer PDFs. Every stage of that pipeline finds its files through one small
module, `scripts/mymodule.py`. This project models that module's logic.

- `__modify_title` turns a page title into a file stem in two passes. First,
  each of the nine characters `\ / : * ? " < > |`, which Windows refuses in
  file names, becomes `_`. Then each run of two or more half-width spaces (U+0020)
  becomes a single space. Browsers collapse such runs in HTML, so without this
  pass the downloaded PDF's name would not match the title.
- `target_pages` keeps the settings rows whose flag cell is true. For each kept
  row it yields the sanitised title, or the title with its URL when
  `need_url` is set.
- `POSTFIXES` holds `_q` and `_a`. The question and answer files of a page are
  named `<title>_q.<ext>` and `<title>_a.<ext>`.

Each Python `re.sub` is written as a recursive function over `seq<char>` that
follows Python's rules: scan left to right, take the leftmost match, match
greedily, and do not overlap matches. The space-collapsing pass is also given
an independent definition that streams one character at a time
(`SqueezeAfter`: drop a space whose left neighbour is a space). A lemma proves
the two definitions equal on every input.

Modules:
- `TitleSanitiser` (title.dfy) covers `__modify_title`.
- `PageList` (pages.dfy) covers `target_pages`.
- `Postfixes` (postfixes.dfy) covers `POSTFIXES` and the file names built from it.

Inputs and what stays outside the model:
- The rows of `setting.csv` are a parameter `rows: seq<seq<string>>`.
- "`ast.literal_eval(row[2])` is truthy" is a parameter `truthy: string -> bool`.
- Python reads the flag cell `row[2]` of each row before anything else. So a
  row with fewer than three cells raises `IndexError`. The model returns
  `ShortRow(i)` for the first such row.

`ModifyTitleNotInjective` shows that two different titles can share a stem,
for example `a:b` and `a/b`. scripts/notion2html.py:264 builds a dictionary
keyed by that stem, so two such pages would keep only one URL. This is a
limitation of the design, not a defect in the code shown.

## Model

| member | source | states |
|---|---|---|
| `TitleSanitiser.ReplaceForbidden` | scripts/mymodule.py:21 | The length is unchanged. Each of the nine characters (backslash, slash, colon, asterisk, question mark, double quote, less-than, greater-than, vertical bar) becomes `_`, every other character keeps its position, and none of the nine is left. |
| `TitleSanitiser.ReplaceForbiddenKeepsClean` | scripts/mymodule.py:21 | A title with none of the nine characters goes through the first pass unchanged. |
| `TitleSanitiser.CollapseSpaces` | scripts/mymodule.py:24 | The result of `re.sub(r'  +', ' ', s)` has no two adjacent U+0020. It is no longer than `s`, it is non-empty and starts with the same character when `s` is non-empty, and it holds only characters that occur in `s`. |
| `TitleSanitiser.CollapseIsSqueeze` | scripts/mymodule.py:24 | The greedy regex substitution equals the streaming rule "drop every space whose left neighbour is a space", on every input. |
| `TitleSanitiser.CollapseKeepsNonSpaces` | scripts/mymodule.py:22-24 | Collapsing removes only U+0020. With all U+0020 deleted, input and output are identical, so tabs, full-width spaces and all other characters survive in order. |
| `TitleSanitiser.CollapseAppend` | scripts/mymodule.py:24 | Runs are rewritten independently. If a cut does not fall inside a run of spaces, collapsing the two pieces separately gives the same result as collapsing the whole. |
| `TitleSanitiser.LoneSpaceSurvives` | scripts/mymodule.py:24 | A U+0020 with no U+0020 on either side stays where it is, including a leading or trailing one. |
| `TitleSanitiser.CollapseKeepsSingleSpaced` | scripts/mymodule.py:24 | A title with no double space goes through the second pass unchanged. |
| `TitleSanitiser.CollapseFixedPoints` | scripts/mymodule.py:24 | The second pass leaves a title unchanged exactly when the title has no two adjacent spaces (both directions). |
| `TitleSanitiser.CollapseKeepsNoForbidden` | scripts/mymodule.py:21-24 | The second pass cannot bring back one of the nine characters that the first pass removed. |
| `TitleSanitiser.ModifyTitle` | scripts/mymodule.py:17-25 | The sanitised title has none of the nine characters and no double space. It is no longer than the input, and it is non-empty when the input is non-empty. |
| `TitleSanitiser.ModifyTitleKeepsNonSpaces` | scripts/mymodule.py:21-24 | The first-pass output and the final title are identical once U+0020 is deleted from both. |
| `TitleSanitiser.ModifyTitleIdempotent` | scripts/mymodule.py:17-25 | Sanitising an already sanitised title changes nothing. |
| `TitleSanitiser.ModifyTitleFixedPoints` | scripts/mymodule.py:17-25 | The sanitiser leaves a title unchanged exactly when the title has none of the nine characters and no double space (both directions). |
| `TitleSanitiser.PassesCommute` | scripts/mymodule.py:21-24 | Running the two substitutions in the opposite order gives the same title. |
| `TitleSanitiser.ModifyTitleNotInjective` | scripts/mymodule.py:21 | Two different titles can be given the same stem. |
| `PageList.EntryOf` | scripts/mymodule.py:35 | A kept row yields its sanitised first cell. With `need_url` it yields a pair whose URL is the second cell, unchanged. Without `need_url` it yields the title alone. |
| `PageList.Selected` | scripts/mymodule.py:36-37 | The positions of the kept rows are strictly increasing and in range. A row's position is among them exactly when its flag cell is truthy. |
| `PageList.TargetPages` | scripts/mymodule.py:27-39 | The method fails exactly when some row lacks a flag cell, and it reports the first such row. Otherwise its k-th entry is the entry for the k-th kept row, so the list keeps input order and contains exactly the flagged rows. |
| `Postfixes.FileName` | scripts/html2pdf.py:97-98 | A file name is the title, then the postfix, then the extension: its length is the sum of the three, and it starts with the title. |
| `Postfixes.QuestionAndAnswerNamesDiffer` | scripts/mymodule.py:15 | For any two titles and the same extension, the `_q` file name never equals the `_a` file name. |
| `Postfixes.FileNameDeterminesTitle` | scripts/html2pdf.py:97-98 | Two file-name strings built with the same postfix and extension are equal only when the titles are equal. |
| `Postfixes.StemIsClean` | scripts/mymodule.py:15-25 | A sanitised title followed by `_q` or `_a` has none of the nine characters and no double space. |

## Left out

- Reading `setting.csv` (scripts/mymodule.py:10, 36) is file I/O, so the rows are an input sequence.
- `ast.literal_eval` (scripts/mymodule.py:37) is a call into Python's own parser. "The flag cell is truthy" is the parameter `truthy`. The `ValueError` or `SyntaxError` it raises on a cell that is not a Python literal (an empty cell, or `a b`) is not modelled.
- Control characters (U+0001 to U+001F, such as a tab) pass through the sanitiser unchanged, both in the source and in the model, although Windows refuses them in file names. Only the nine characters of scripts/mymodule.py:21 are rewritten, so "none of the nine characters" is all the model promises about file-name safety.
- Lone surrogates (U+D800 to U+DFFF), which a Python `str` may hold, cannot occur in a Dafny `string`. Neither pass treats them specially.
- `HOMEDIR` and `APPDIR` (scripts/mymodule.py:12-13) describe the filesystem environment, not logic.
- scripts/notion2html.py is browser automation: Selenium control, retries, and a download wait driven by the clock and directory polling.
- scripts/html2pdf.py is Chrome print-to-PDF automation plus moves between temporary directories. Only its file-name pattern (lines 97-98) is modelled.
- scripts/combine_pdfs.py merges PDF pages with a foreign library. Its layout uses floating-point arithmetic and it runs a process pool.
- scripts/do_all_at_once.py only calls the other scripts' `main` after a confirmation prompt.
- The cloze-deletion rewriter in `.scripts/reform_html.py` is not part of this model. This covers its width estimator, HTML normalisation and placeholder splicing, which depend on an HTML tree library and Unicode East-Asian-width data.
