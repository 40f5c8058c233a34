# ADT-1 form extractor: a Dafny model of its deterministic core

The extractor reads one auditor-appointment filing (Form ADT-1) from a PDF in the
working directory. It copies the form's interactive fields into a fixed 19-key record
(`data.json`). It runs OCR over the PDFs embedded in the form and sends their text to a
language model. It then writes `summary.txt` from the model's replies. This project
models the parts of that program that are plain computation on strings and maps:

- **Locator** picks the first directory entry whose lower-cased name ends in `.pdf`.
  There is no result when no entry qualifies; in the program that is the "no PDF"
  message and the exit.
- **FormReader** runs the widget loop, which copies every page's `(name, value)` widgets
  into a map. Empty names are skipped, and a later widget overwrites an earlier one with
  the same name.
- **SchemaMapper** is the pure mapping from raw field names to the 19 output keys. It
  defaults absent fields to `""`. It builds `appointed_period` as from-date, `" - "`,
  to-date. It turns every carriage return in `registered_office` into a space. It
  builds the six-part `auditor_address` with the fixed `City: `, `State: `,
  `Country: ` and `PIN: ` labels. The key `appoitment_date` keeps the spelling the
  program uses.
- **Attachments** builds the attachment text. Each page's OCR spans are joined by
  spaces, and braces are removed. Each attachment that processes cleanly adds
  `Document name: <stem>` followed by its page texts. A failing attachment adds nothing
  and does not stop the attachments after it.
- **Outputs** lays out `summary.txt`. It also models `main`'s choice of an attachment
  summary: one is requested exactly when the attachment count is nonzero.
- **Pipeline** is `main` with the collaborators' results as inputs.
- **Strings** holds the Python string operations used above: `lower`, `endswith`, `join`,
  `replace`, `rfind` and `os.path.splitext`.

Collaborators are inputs:
- The PDF engine's view of the chosen file: its pages of widgets, and its embedded files,
  each either unreadable or a file name with per-page OCR results.
- The OCR engine's text spans.
- The two language-model replies, as opaque strings.

Behaviours of the program that the model keeps:

- extractor.py:224-232 requests the attachment summary whenever the attachment count is
  nonzero, even when every attachment failed and `all_doc` is `""`.
- extractor.py:186 compares `attachment_summary` with `""`. When attachments exist, that
  value is the model's reply object, which never equals `""`, so the second section of
  `summary.txt` is written whenever a reply was requested, even if the reply's text is
  empty. `Outputs.AttachmentSummary` keeps the two values apart.
- extractor.py:70 follows each page's text with `"\n"`, and extractor.py:72 ends each
  block with one more `"\n"`.
- extractor.py:96-103 builds `auditor_address` from six parts joined by five `", "`
  separators.
- extractor.py:82-110 builds a record of 19 keys.
- extractor.py:23-25 returns the first PDF in directory-listing order.

## Model

| member | source | states |
|---|---|---|
| `Strings.ToLower` | extractor.py:24 | lower-casing keeps the length and maps every character through the ASCII letter fold |
| `Locator.IsPdfNameCharacters` | extractor.py:24 | a name passes the `.pdf` test iff it has at least four characters and they end in `.`, `p`/`P`, `d`/`D`, `f`/`F` |
| `Locator.SelectPdf` | extractor.py:18-31 | the result is the first listing entry that passes the `.pdf` test, every earlier entry fails it, and there is no result iff no entry passes |
| `FormReader.CollectFields` | extractor.py:33-46 | the nested page/widget loop yields exactly the map of the widgets taken in page order, then widget order |
| `FormReader.CollectedSpec` | extractor.py:39-44 | a name is a key iff it is non-empty and some widget has it, and its value is that of the last widget with that name |
| `FormReader.EmptyNameNeverKey` | extractor.py:43-44 | the empty name is never a key |
| `SchemaMapper.Get` | extractor.py:83 | a lookup gives the field's value when present and `""` when absent |
| `SchemaMapper.KeyIndex` | extractor.py:82-110 | every entry of the record has a position in the dict literal's order |
| `SchemaMapper.KeysSpelled` | extractor.py:82-110 | the entries, listed in order, are written under the 19 output keys as the dict literal spells them, including `appoitment_date` |
| `SchemaMapper.StructureFormData` | extractor.py:80-111 | the record has 19 entries whose keys are the output keys, in order |
| `SchemaMapper.OutputKeysDistinct` | extractor.py:82-110 | the 19 output keys are pairwise distinct, so no key is missing or repeated |
| `SchemaMapper.LookupAt` | extractor.py:82-110 | a key whose earlier entries carry other keys reads the value at its own position |
| `SchemaMapper.LookupMissing` | extractor.py:82-110 | a key no entry carries has no value |
| `SchemaMapper.ValueOfKey` | extractor.py:82-110 | under each entry's key, `data.json` holds that entry's value as computed from the raw fields |
| `SchemaMapper.ValueOfKeys` | extractor.py:82-110 | `data.json` holds a value under exactly the 19 output keys |
| `SchemaMapper.CopiedFieldsDefaulted` | extractor.py:83-109 | under each of the 16 copying keys, `data.json` holds the paired raw field's value when the field is present and `""` when it is absent |
| `SchemaMapper.AppointedPeriodLayout` | extractor.py:90-91 | the value under `appointed_period` is from + `" - "` + to, each side defaulted on its own, so an empty form gives `" - "` |
| `SchemaMapper.RegisteredOfficeCleaned` | extractor.py:86 | the value under `registered_office` has no carriage return, the source's length, and differs from it only where it held a carriage return, which became a space |
| `SchemaMapper.AuditorAddressLayout` | extractor.py:96-103 | the value under `auditor_address` is the six parts with the labels `, `, `, City: `, `, State: `, `, Country: `, `, PIN: `, so it is 37 characters longer than its parts |
| `SchemaMapper.EmptyAddressParts` | extractor.py:96-103 | with all six parts empty, the address is `", , City: , State: , Country: , PIN: "` |
| `SchemaMapper.EmptyFormRecord` | extractor.py:82-110 | for a form with no fields, `data.json` holds `""` under every copying key and `registered_office`, `" - "` under `appointed_period` and `", , City: , State: , Country: , PIN: "` under `auditor_address` |
| `SchemaMapper.SameValue` | extractor.py:82-110 | each entry's value depends only on the 25 fields the mapper reads |
| `SchemaMapper.OnlyKnownFieldsMatter` | extractor.py:82-110 | two field maps that agree on the 25 known fields give the same record |
| `Strings.ReplaceChar` | extractor.py:86 | the replacement keeps the length and substitutes position by position |
| `Strings.Join` | extractor.py:68 | joining gives `""` for no parts and the part itself for one part, and contains only characters of the parts or of the separator |
| `Strings.JoinSnoc` | extractor.py:68 | joining one more part appends the separator and that part, so the parts appear in order with the separator between neighbours |
| `Strings.JoinLength` | extractor.py:68 | a join of at least one part is as long as its parts plus one separator per pair of neighbours |
| `Strings.RemoveChar` | extractor.py:69 | removal leaves no occurrence, keeps every other character present, never lengthens, and changes nothing when the character is absent |
| `Strings.RemoveCharCounts` | extractor.py:69 | removal keeps every other character with its count: the multiset of the result is that of the input with the removed character dropped |
| `Strings.RemoveCharAppend` | extractor.py:69 | removal works piece by piece over a concatenation, so the kept characters stay in their order |
| `Strings.RemoveCharSingle` | extractor.py:69 | a single character is dropped when it is the removed one and kept otherwise |
| `Attachments.PageText` | extractor.py:68-69 | a page's text never contains `{` or `}` |
| `Attachments.PageTextKeepsBraceFreeSpans` | extractor.py:68-69 | when no span holds a brace, the page text is exactly the spans joined by single spaces |
| `Attachments.Unbraced` | extractor.py:69 | a span with its braces removed holds no brace |
| `Attachments.PageTextSingle` | extractor.py:68-69 | a page of one span is that span without its braces |
| `Attachments.PageTextSnoc` | extractor.py:68-69 | one more span adds a single space and that span without its braces, so the page text is the unbraced spans joined by single spaces |
| `Attachments.PagesTextFails` | extractor.py:63-70 | an attachment's pages yield text iff none of the pages failed |
| `Attachments.PagesTextBraceFree` | extractor.py:69-70 | the collected page text holds no brace |
| `Attachments.CollectPageTexts` | extractor.py:60-70 | the page loop yields each page text plus a newline, in order, or nothing when a page fails |
| `Attachments.ExtractEmbeddedDocuments` | extractor.py:48-78 | the attachment loop yields exactly the concatenation, in index order, of the blocks of the attachments that succeeded |
| `Attachments.AllDocAppend` | extractor.py:54-78 | the text of two runs of attachments is the first run's text followed by the second's |
| `Attachments.AllDocSplit` | extractor.py:54-76 | a failed attachment contributes nothing and later ones still contribute; a successful one contributes its block between the text before and after |
| `Attachments.BlockFails` | extractor.py:55-76 | an attachment contributes nothing iff it is unreadable or one of its pages failed |
| `Attachments.AllDocBraceFree` | extractor.py:69-72 | when no file name contains a brace, the whole attachment text contains none |
| `Strings.SplitextRootCut` | extractor.py:72 | the root is a prefix of the name, and when shorter it stops at a `.` after which there is no `.` or `/`, with a non-dot in the base name before it |
| `Strings.Stem` | extractor.py:72 | the stem is a prefix of the file name |
| `Strings.StemMatchesSplitext` | extractor.py:72 | the right-to-left scan used by the model equals the `rfind`-based `splitext` root for every name |
| `Strings.StemDropsExtension` | extractor.py:72 | `base.ext` loses `.ext` when the base name has a non-dot character and no `/` |
| `Strings.StemKeepsDotName` | extractor.py:72 | a base name made only of dots, as in `.pdf`, keeps its whole name |
| `Strings.StemWithoutDot` | extractor.py:72 | a name without a dot is its own stem |
| `Strings.StemExamples` | extractor.py:72 | `.pdf` keeps its name and `notice.pdf` becomes `notice` |
| `Outputs.AttachmentSummaryFor` | extractor.py:222-232 | an attachment reply is taken iff the attachment count is nonzero |
| `Outputs.SummaryText` | extractor.py:186-196 | `summary.txt` begins with `"Summary\n\n"` + summary; with a reply it continues with the attachment heading and the reply, and otherwise it ends there |
| `Outputs.SecondSectionIffAttachments` | extractor.py:186-196 | `summary.txt` is exactly `"Summary\n\n"` + summary iff the attachment count is 0; otherwise the attachment section follows, even for an empty reply |
| `Outputs.TextFile.Write` | extractor.py:188-191 | a write appends its string to the file's content |
| `Outputs.SaveSummary` | extractor.py:179-196 | the two write sequences of `save_outputs` leave `summary.txt` holding exactly `SummaryText` |
| `Pipeline.Run` | extractor.py:202-238 | no outcome iff the listing has no PDF; otherwise the first PDF is chosen, the record maps the collected fields, attachment text exists iff there are attachments, and `summary.txt` follows the attachment branch |

## Left out

- Directory listing, `exit()` and every `print`: these are I/O. The listing is an input
  sequence, and "no PDF" is an empty result.
- PyMuPDF: opening the document, `widgets()`, `embfile_count`/`embfile_info`/`embfile_get`,
  and rasterising with `get_pixmap` and the numpy reshape. These are foreign library
  calls. Their results are inputs: pages of widgets, and attachments that are unreadable
  or carry per-page OCR results or page failures. The attachment count is the number of
  attachments given.
- EasyOCR (`Reader`, `readtext`): an external recognition engine. Each page is given as
  its sequence of recognised text strings; bounding boxes and confidences play no part.
- `generate_summaries` and `generate_attachment_summaries`: prompt rendering and the
  Gemini call go over the network to an opaque model. The replies' `.content` strings
  are inputs. The prompt texts are not modelled.
- `.env` loading and `os.getenv`: environment configuration.
- `json.dump` and the file writes: the record is modelled with its entries in key order,
  not as serialised JSON, so the `data.json` parse-back property is not stated. Only the
  text content of `summary.txt` is modelled, not its UTF-8 encoding.
- The exception handler in `main` that logs and re-raises: error plumbing outside the
  core. Failures of the language model or of the top-level document are not modelled.
- Widget values of `None`: every value is assumed to be a string. In the program a
  present `None` would be written as `"None"` in a formatted field, or break `.replace`.
- Strings.ToLower: folds only ASCII `A`-`Z`, not all of Unicode. For the `.pdf` suffix test
  this makes no difference, because no other character lower-cases to `.`, `p`, `d`
  or `f`.
- Strings.Stem: models POSIX `os.path.splitext`, with `/` as the only separator. The
  Windows variant, with `\` and drive letters, is not modelled.
- Widget and directory-entry order: taken as given, because the PDF engine and the
  operating system decide it.
