# Page-level PDF ingestion into a Whoosh index, in Dafny

This project models `import_pdfs.py`, the bulk importer of a small PDF search
application. The importer walks a folder and keeps the files whose name ends
in `.pdf` in any letter case. It opens each of them with PyMuPDF and, for
every page, writes one Whoosh document with these fields:

- `doc_id`: `file_page_id(basename, page)`, the SHA-1 hex digest of
  `utf8(basename) ++ b"::" ++ str(page)`.
- `filename` and `title`: both the bare file name.
- `page`: the page number, counted from 1.
- `content`: the page text.

The writer's `update_document` writes the document under its `doc_id`.
`commit` runs in a `finally` block. The index is created only when none
exists yet.

The modules follow the pieces of the script:

- `Text`: Python `str` as a sequence of code points, and bytes.
- `Utf8`: `str.encode("utf-8", errors="ignore")`, with a decoder that reads it back.
- `Decimal`: `str(int)`, with a parser that reads it back.
- `DocIdentity`: `file_page_id`. SHA-1 is a function parameter `hash`; the model fixes the exact bytes it is applied to.
- `Paths`: `name.lower().endswith(".pdf")`, `os.path.join`, `os.path.basename` and the `walk_pdfs` generator. The directory walk is an input sequence of (directory, name) entries.
- `Pages`: the `extract_pages` generator. An opened PDF is the sequence of what `get_text` did on each page; a file `fitz.open` rejects is `Unreadable`.
- `Store`: the Whoosh index as a class. It holds the committed table, the writer's pending table and the "index exists" flag. `Upserts` is the pure view of a batch of `update_document` calls.
- `Ingest`: `main` as an imperative method with the outer loop over PDFs, the inner loop over pages, and the commit at the end. It is proved equal to a pure description of the run.
- `RunProperties`: what a whole run promises: idempotent re-runs, persistence of earlier documents, the document count, the later of two same-named PDFs winning, and keys that do not depend on the page text.

`update_document` is modelled as insert-or-replace on a table keyed by
`doc_id`, including for a key written twice in one writer session. Whoosh
documents `update_document` as replacing only committed documents; if so,
two writes of one `doc_id` in one session both remain after `commit`. The
document count and the later of two same-named PDFs winning within one
run are properties of the insert-or-replace model and rest on this choice
(see `Store.IndexStore.UpdateDocument` under "Left out"). Two pages of one
file never share a `doc_id` when SHA-1 does not collide, so this only
matters for PDFs whose basenames give one UTF-8 preimage: the same
basename in different folders, or basenames that differ only by lone
surrogates, which `errors="ignore"` drops (`DocIdentity.SurrogateNamesCollide`;
`"a\udc80.pdf"` and `"a.pdf"` collide even in one folder). The latter reach
`update_document` only when standard output lets the `print` at
import_pdfs.py:59 through (see `Ingest.IndexFolder` under "Left out").

How the code handles failures:

- The commit sits in `finally`. A PDF that `fitz.open` cannot read ends the run with an exception, after every document written before it has been committed (`Ingest.IndexFolder` returns `Aborted(path)`).
- No file is skipped.
- A page whose text extraction raises gives `""`, and the enumeration goes on.

## Model

| member | source | states |
|---|---|---|
| Utf8.EncodeIgnore | import_pdfs.py:28 | the encoding is at most four bytes per code point, and at least one per code point when no lone surrogate is present |
| Utf8.DecodeEncode | import_pdfs.py:28 | decoding the UTF-8 encoding of a surrogate-free string gives the string back |
| Utf8.EncodeInjective | import_pdfs.py:28 | two surrogate-free strings with the same encoding are equal |
| Utf8.IgnoreDropsSurrogate | import_pdfs.py:28 | example of SurrogateDropped: `"a\ud800"` encodes like `"a"` |
| Utf8.SurrogateDropped | import_pdfs.py:28 | for any strings `s`, `t` and lone surrogate `c`, `s + c + t` encodes like `s + t` |
| Decimal.NatDigits | import_pdfs.py:30 | the digits of a natural number are non-empty ASCII digits without a leading zero |
| Decimal.IntToDecimal | import_pdfs.py:30 | `str(page)` is non-empty and contains no colon |
| Decimal.ParseNat | import_pdfs.py:30 | reference inverse of `str` (the source has no parser): it accepts exactly the non-empty digit strings |
| Decimal.ParseIntDecimal | import_pdfs.py:30 | parsing `str(n)` gives `n` back, for every integer |
| Decimal.DecimalInjective | import_pdfs.py:30 | distinct integers have distinct decimal strings |
| DocIdentity.Preimage | import_pdfs.py:26-31 | the bytes `file_page_id` feeds to SHA-1: encoded path, `::`, decimal page; its properties are stated by SplitPreimageRoundTrip, PreimageInjective, PagesOfOneFileDiffer and SurrogateNamesCollide |
| DocIdentity.FilePageId | import_pdfs.py:26-31 | the `doc_id`: `hash` applied to the preimage, so equal (path, page) give equal ids whatever the page text (KeysIgnoreText) |
| DocIdentity.LastSeparator | import_pdfs.py:29 | reference inverse used for the round trip (the source does not search for `::`): finds the last `::` of a byte string, or reports that there is none |
| DocIdentity.SeparatorIsLast | import_pdfs.py:28-30 | in a preimage, the `::` written by `file_page_id` is the last one, whatever the path bytes hold |
| DocIdentity.SplitPreimageRoundTrip | import_pdfs.py:26-31 | with the reference inverses, splitting the hashed bytes at the last `::` recovers the encoded path and the page number |
| DocIdentity.PreimageInjective | import_pdfs.py:26-31 | distinct (path, page) pairs give distinct hash inputs when neither path holds a lone surrogate |
| DocIdentity.PagesOfOneFileDiffer | import_pdfs.py:26-31 | two different pages of one file never share a hash input |
| DocIdentity.SurrogateNamesCollide | import_pdfs.py:26-31 | for any name `s + c + t` with `c` a lone surrogate, it differs from `s + t` yet gets the same id for every page |
| Paths.Lower | import_pdfs.py:45 | ASCII lower-casing: no capital letter remains, each capital becomes its small letter, every other code point is kept |
| Paths.LowerIdempotent | import_pdfs.py:45 | lower-casing twice is lower-casing once |
| Paths.IsPdfName | import_pdfs.py:45 | the `walk_pdfs` filter; PdfNameCharacterized states which names it accepts |
| Paths.PdfNameCharacterized | import_pdfs.py:45 | a name passes the filter exactly when its last four characters are `.`, `p`/`P`, `d`/`D`, `f`/`F` |
| Paths.UpperCaseExtensionAccepted | import_pdfs.py:45 | `A.PDF` passes the filter |
| Paths.BackupExtensionRejected | import_pdfs.py:45 | `a.pdf.bak` does not pass the filter |
| Paths.Join | import_pdfs.py:46 | `os.path.join`: the result ends with the name, and starts with the directory unless the name is absolute |
| Paths.LastSlash | import_pdfs.py:58 | the position of the last `/`, or -1 when there is none |
| Paths.Basename | import_pdfs.py:58 | the basename holds no `/`, ends the path, and follows its last `/` |
| Paths.BasenameOfJoin | import_pdfs.py:58 | the basename of `join(root, name)` is `name` when `name` holds no `/` |
| Paths.WalkPdfs | import_pdfs.py:42-46 | a path is yielded exactly when it is `join(root, name)` for a walk entry whose name passes the filter |
| Paths.WalkPdfsAppend | import_pdfs.py:43-46 | the walk is consumed in order: walking two parts yields the first part's PDFs, then the second's |
| Paths.WalkedBasename | import_pdfs.py:42-46 | the basename of every yielded path is the name of an entry that passed the filter |
| Pages.TextOf | import_pdfs.py:36-39 | a page whose extraction fails gives `""`; otherwise the page gives its text |
| Pages.Enumerate | import_pdfs.py:35 | one pair per page, numbered upwards from `start`, in page order |
| Pages.ExtractPages | import_pdfs.py:33-40 | one pair per page, numbered 1 to N in order; a failed page gives `""` and does not end the sequence |
| Store.Upserts | import_pdfs.py:62-68 | the keys after a batch are the old keys plus the written `doc_id`s, and every entry is either a document written under its own key or the old entry |
| Store.UpsertsLastWins | import_pdfs.py:62-68 | a key holds the last document written with it |
| Store.UpsertsUntouched | import_pdfs.py:62-68 | a key that no update wrote keeps its old presence and value |
| Store.UpsertsCount | import_pdfs.py:14 | from an empty table there is one document per distinct `doc_id` written |
| Store.UpsertsOverBase | import_pdfs.py:62-68 | writing on top of a table is writing from empty and laying the result over the table |
| Store.UpsertsAppend | import_pdfs.py:56-68 | writing two batches one after the other is writing their concatenation |
| Store.UpsertsIdempotent | import_pdfs.py:62-68 | writing the same documents again changes nothing |
| Store.IndexStore.GetIndex | import_pdfs.py:20-24 | an index is available exactly when one existed or `create` is set; a new index is empty and an existing one keeps its documents |
| Store.IndexStore.Writer | import_pdfs.py:54 | a fresh writer has no pending updates, and the committed documents are unchanged |
| Store.IndexStore.UpdateDocument | import_pdfs.py:62-68 | the pending table gets the document under its `doc_id`, replacing any earlier one |
| Store.IndexStore.Commit | import_pdfs.py:70-71 | the pending updates are laid over the committed documents, and the writer is emptied |
| Ingest.PageRecord | import_pdfs.py:61-67 | the keyword arguments of one `update_document` call; FileRecords and FilesRecordsShape state what they hold |
| Ingest.FileRecords | import_pdfs.py:58-68 | one document per page of the file, the i-th holding page i+1, the page's text and the file's basename as filename and title |
| Ingest.FirstUnreadable | import_pdfs.py:34 | the first walked path that does not open, and every path before it opens |
| Ingest.FilesRecordsShape | import_pdfs.py:58-67 | every written document has `title == filename`, a filename without `/` that is the basename of a walked path, a page number from 1, and the id of its (filename, page) |
| Ingest.WritePdf | import_pdfs.py:58-68 | the inner loop adds the file's documents to the pending table in page order, and commits nothing |
| Ingest.RunRecords | import_pdfs.py:53-71 | the documents `main` writes, in call order; RunRecordsShape and TwoPdfRun state their properties, and IndexFolder is proved to write exactly them |
| Ingest.RunOutcomeOf | import_pdfs.py:53-71 | a run ends aborted at the first walked PDF that does not open, every PDF walked before it having opened (FirstFailing), and normally exactly when every walked PDF opens |
| Ingest.CommittedAfter | import_pdfs.py:53-71 | the keys after a run are the earlier keys (none when the index is created) plus the `doc_id`s written |
| Ingest.IndexFolder | import_pdfs.py:53-71 | after `main`, the committed table is the earlier one (or empty if the index was created) overlaid with every page of every PDF before the first unreadable one; the run ends `Aborted` at that file, or `Done` |
| RunProperties.RunRecordsShape | import_pdfs.py:56-67 | every document of a run is well formed, and its filename is the name of a walk entry that passed the filter |
| RunProperties.RerunIdempotent | import_pdfs.py:53-71 | running again over an unchanged folder leaves the committed index as it was |
| RunProperties.EarlierRecordsPersist | import_pdfs.py:22-24 | an existing index is opened, not recreated: a document from an earlier run stays unless this run writes its key |
| RunProperties.DistinctRecordCount | import_pdfs.py:58-61 | under the insert-or-replace model of `update_document`: from an empty index, the number of documents is the number of distinct (filename, page) pairs, when no filename holds a lone surrogate and SHA-1 does not collide on them |
| RunProperties.RunDocumentCount | import_pdfs.py:53-71 | under the insert-or-replace model of `update_document`: a run into a new index stores one document per distinct (filename, page) pair it writes, when no walked name holds a slash or a lone surrogate and SHA-1 does not collide |
| RunProperties.TwoPdfRun | import_pdfs.py:56-68 | walking two PDFs that both open, in any folders and under any names, writes the first one's pages, then the second one's |
| RunProperties.PageKeyedLastWins | import_pdfs.py:61-68 | under the insert-or-replace model of `update_document`: of two batches keyed by page number, each key holds the later batch's page when it has one, and the earlier batch's otherwise |
| RunProperties.LaterFileWins | import_pdfs.py:58-68 | under the insert-or-replace model of `update_document`: of two files with one basename whose page numbers get distinct ids, each page id holds the later file's page when it has that page, and the earlier file's otherwise |
| RunProperties.SameBasenameLaterWins | import_pdfs.py:56-68 | under the insert-or-replace model of `update_document`: two same-named PDFs in different folders, whose page numbers get distinct ids: the later one's pages replace the earlier one's, and pages only the earlier one has remain |
| RunProperties.KeysIgnoreText | import_pdfs.py:61-67 | changing page texts, and nothing else, changes no key: re-indexing an edited PDF replaces its documents instead of adding new ones |
| RunProperties.RerunEditedKeys | import_pdfs.py:53-71 | a second run over the same folder after only page texts changed leaves the set of committed keys exactly as the first run left it |

## Left out

- SHA-1 and its hex encoding are the parameter `hash`. No property of SHA-1 is assumed, except where a lemma takes "no collision on these inputs" as a premise.
- PyMuPDF is left out: opening a file, counting its pages and `get_text`. Each file is given as `Unreadable` or as a sequence of per-page outcomes.
- Pages.TextOf: a page whose `get_text` returns `None` is treated like a failed page. Both give `""`, as in the code.
- Iteration stopping partway through a document that opened (an exception raised by PyMuPDF's page iterator itself) is not modelled. Only `fitz.open` failing is.
- `os.walk` is the input sequence of (directory, name) entries, in the order the walk reports them. Its traversal order and the file system are not modelled.
- `os.makedirs` and `index.exists_in` are left out. Only the boolean "an index exists" is kept.
- Paths.Lower: `str.lower()` is modelled for ASCII letters only. Other characters are left unchanged, so non-ASCII case mappings are not modelled, including those that change the length (U+0130 lower-cases to two code points). No non-ASCII code point lower-cases to `.`, `p`, `d` or `f`, so the filter as characterised by PdfNameCharacterized is the same.
- Paths.Join and Paths.Basename follow POSIX path rules. Windows separators are not modelled.
- Store.IndexStore.UpdateDocument: writing the same `doc_id` twice in one writer session is modelled as a plain replace. Whoosh documents `update_document` as replacing only committed documents, so both writes may remain after `commit`. Where two PDFs with one basename, or with basenames that differ only by lone surrogates, are walked in one run, the index may then hold both copies of a page. LaterFileWins, SameBasenameLaterWins, PageKeyedLastWins, DistinctRecordCount and RunDocumentCount hold for the insert-or-replace model, not necessarily for Whoosh.
- Store.IndexStore.Commit: a commit that fails is not modelled. Neither are the writer tuning (`limitmb`, `procs`, `multisegment`), the on-disk segment layout or the tokenisation of TEXT fields.
- The schema's field types are not checked. `Record` holds the five fields as values.
- `argparse` and the `print` calls are left out.
- Ingest.IndexFolder: the `print` of each basename before its pages are written (import_pdfs.py:59) is not modelled. With a strict standard output (any UTF-8 locale other than C/C.UTF-8, outside UTF-8 mode), a basename holding a lone surrogate raises `UnicodeEncodeError` there. The run then ends at that file and the `finally` commits the earlier files, where the model indexes the file. The C and C.UTF-8 locales and UTF-8 mode use `surrogateescape` and print such names without error.
- app.py is not part of this model. It holds the web front end and the search through Whoosh's query parser.
