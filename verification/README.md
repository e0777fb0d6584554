# E-mail to HTML conversion and the index of converted pages

The repository turns saved e-mails (`.eml` files) into standalone HTML pages and then
builds an `index.html` that lists those pages. There are three converters.
`eml_to_html_include_inline_image.py` embeds inline images as `data:` URIs.
`eml_to_html.py` and `eml_to_html_only_text.py` are two identical text-only copies.
`generate_index.py` reads back the subject, sender and date of each page and writes the
sorted, numbered table.

This project models what those scripts decide. Messages are modelled as their parts in
`msg.walk()` order, and files as the names and texts the scripts read. The model covers:

- redaction (`anonymize_content`), with the privacy rules as a parameter;
- the image index (`extract_images_from_email`), with Base64 as in section 4 of RFC 4648;
- the rewriting of `cid:` references (`replace_cid_references`);
- the removal of image dimensions (`clean_image_dimensions`);
- the choice of the body (`extract_email_content`) in both variants;
- the list of attachments (`extract_attachments_info`);
- the header values each page shows, and which files are converted and where their pages go;
- `format_file_size`;
- the reading of subject, sender and date from a page (`extract_email_info`), with its
  fallbacks and limits;
- the stable sort by lower-cased subject, the numbering, the links and the index path
  (`generate_index_html`).

Each regular expression the code uses is a scanner. It keeps the leftmost, left-to-right,
non-overlapping choices of Python's `re.sub` and `re.search` for that pattern.

The modules follow the scripts.

- **Shared helpers**
  - `Text`: character classes, `strip`, lower-casing.
  - `Scan`: `re.sub` and `re.search` over a matcher.
  - `Paths`: `basename`, `dirname`, `join` and `stem` on `/`-separated paths.
  - `Base64`, `HtmlEscape`: `html.escape` and its inverse.
  - `Template`: the `re.sub` replacement-template reader.
  - `Entities`: the references the index decodes.
- **Converters**
  - `Mime`: parts and messages.
  - `Redaction`.
  - `Images`.
  - `CidRewrite`.
  - `Dimensions`.
  - `InlineBody`: the image converter's body.
  - `TextBody`: the body of the two text converters.
  - `Attachments`.
  - `Conversion`: headers, file selection and output names.
- **Index**
  - `Sizes`.
  - `Fields`: the patterns that read a page.
  - `Readback`: a subject written by a converter is read back by the index.
  - `Sorting`.
  - `IndexEntry`: `extract_email_info`.
  - `IndexPage`: `generate_index_html`.

Three consequences of what the scripts do are worth knowing before reading the model.

- **Output names can collide.** The converters walk the input tree recursively but write
  every page into one flat directory, named by the stem of its file. `x/a.eml` and
  `y/a.eml` therefore produce the same page, and so do `a.eml` and `a.EML`. The later
  conversion overwrites the earlier one. Output names are not unique.
- **Dimension cleaning is not idempotent.** A single pass removes one `width` attribute per
  tag. `<img width=1 width=2>` needs two passes.
- **The index reads and links as the code does.** Subject, sender and date are decoded
  by the chain of `.replace` calls, which decodes `&amp;lt;` to `<`. The links go through
  the folder's name, also for the folder `.`. The corrected decoding (`Entities.Decode`)
  and the corrected link (`IndexPage.Link`) are stated beside them, with the lemmas that
  compare the two (see Findings).

## Model

| member | source | states |
|---|---|---|
| Redaction.Anonymize | eml_to_html_include_inline_image.py:11-24 | an empty text is returned as it is; otherwise the result has no surrounding whitespace and its only whitespace character is the plain space |
| Redaction.AnonymizeKeepsText | eml_to_html_include_inline_image.py:20-24 | every character the rules left that is not whitespace or one of `<`, `>`, `(`, `)` is kept by the clean-up, in order |
| Redaction.AnonymizeCleanText | eml_to_html.py:9-22 | a text that the rules leave alone and that is already stripped, single-spaced and free of empty pairs comes back unchanged |
| Redaction.CollapseIdempotent | eml_to_html_include_inline_image.py:20 | collapsing whitespace runs to one space a second time changes nothing |
| Redaction.CollapseShape | eml_to_html.py:18 | after the collapse every whitespace character is a space and no two spaces are adjacent |
| Redaction.CleanUpKeeps | eml_to_html_only_text.py:18-22 | collapsing, bracket removal and stripping keep, in order, every character that is not whitespace or one of `<`, `>`, `(`, `)` |
| Redaction.RemovePairsKeeps | eml_to_html_include_inline_image.py:21-22 | removing empty pairs keeps, in order, every character that is not whitespace or one of the two brackets |
| Redaction.RemovePairsAt | eml_to_html_include_inline_image.py:21-22 | at the first empty pair, which is the open bracket, whitespace and the close bracket, the text before it is kept, the pair is dropped and the pass continues after it |
| Redaction.RemovePairsNone | eml_to_html.py:19-20 | a text with no empty pair comes out of the deletion pass unchanged |
| Redaction.BracketsAfterCollapse | eml_to_html_include_inline_image.py:20-24 | bracket removal comes after the collapse, so `a <> b` becomes `a  b`, with two spaces; single spacing is not a property of the result |
| Images.Register | eml_to_html_include_inline_image.py:36-55 | one part adds exactly the keys it registers (`cid:`+id and id for a Content-ID, the filename when present), all mapped to its data URI; every other key keeps its value |
| Images.IndexLookup | eml_to_html_include_inline_image.py:30-57 | a key is in the index exactly when some part registers it, and its value is the data URI of the last part that does |
| Images.IndexKeys | eml_to_html_include_inline_image.py:26-57 | the index has a key exactly when some part in walk order registers it |
| Images.NoImagesNoKeys | eml_to_html_include_inline_image.py:36-40 | when no part is an image with a non-empty payload, the index is empty |
| Images.ContentIdKeys | eml_to_html_include_inline_image.py:46-50 | an image with a Content-ID is found under `cid:`+id and under id, with the angle brackets stripped from both ends of the id |
| Images.UriCarriesPayload | eml_to_html_include_inline_image.py:42-43 | the data URI is `data:<type>;base64,` followed by text that decodes back to the payload |
| Images.BareIdSpec | eml_to_html_include_inline_image.py:48 | the id is the Content-ID with every leading and trailing `<`/`>` removed and nothing else changed |
| Base64.DecodeEncode | eml_to_html_include_inline_image.py:42 | decoding the Base64 text of any byte string gives that byte string back |
| Base64.Encode | eml_to_html_include_inline_image.py:42 | the encoding has four characters for every started group of three bytes |
| CidRewrite.ReplaceCidReferences | eml_to_html_include_inline_image.py:89-92 | an empty page or an empty image index leaves the HTML unchanged, with no dimension cleaning |
| CidRewrite.Lookup | eml_to_html_include_inline_image.py:103-109 | a reference resolves exactly when `cid:`+id or id is a key, and `cid:`+id is tried first |
| CidRewrite.FirstRefRewritten | eml_to_html_include_inline_image.py:97-111 | over the whole page, at the first reference the text before it is copied; the reference becomes `attr="uri"` with the URI under `cid:`+id, else the one under id, or stays as matched when neither is a key; the pass goes on after it |
| CidRewrite.UnknownIdsUntouched | eml_to_html_include_inline_image.py:102-111 | a page whose references all miss the index comes out of the attribute's pass unchanged |
| CidRewrite.RefIdShape | eml_to_html_include_inline_image.py:97-99 | a match is the attribute name, `=`, an optional quote and `cid:`, matched case-insensitively, then a non-empty id with no quote, whitespace or `>`, ending where such a character follows |
| CidRewrite.UpperCaseUnquoted | eml_to_html_include_inline_image.py:96-111 | matching ignores case and does not need quotes: `SRC=cid:a` becomes `src="U"` |
| CidRewrite.RewrittenNotRef | eml_to_html_include_inline_image.py:97-99 | a rewritten attribute is not matched again, because its value no longer starts with `cid:` |
| Dimensions.NoImgUnchanged | eml_to_html_include_inline_image.py:59-87 | a page with no `<img` opening comes out unchanged |
| Dimensions.MatchersNeedImg | eml_to_html_include_inline_image.py:65-85 | every pass matches only at an `<img` opening; the tag pattern matches exactly when a `>` follows the opening after at least one other character, and its match ends at the first `>` |
| Dimensions.DropDimSpec | eml_to_html_include_inline_image.py:65-67 | a match runs from `<img` to the first `>`; its replacement removes exactly the leftmost numeric `width`/`height` attribute and keeps the rest of the tag |
| Dimensions.FindDimAttr | eml_to_html_include_inline_image.py:65 | the attribute removed is the leftmost one that ends before the tag's `>` |
| Dimensions.DimensionPassNotIdempotent | eml_to_html_include_inline_image.py:65 | `<img width=1 width=2>` loses one width per pass, so a second pass changes the result again |
| Dimensions.CleanDimsAgrees | eml_to_html_include_inline_image.py:70-85 | the cleaning with the style written literally agrees with the code whenever no cleaned style holds a backslash |
| Dimensions.CleanStyleAgrees | eml_to_html_include_inline_image.py:70-83 | the same agreement for one tag |
| Dimensions.GroupReferenceInStyle | eml_to_html_include_inline_image.py:80 | a cleaned style holding `\5` makes the code's replacement template invalid, so the code raises |
| Dimensions.EscapedStyleRaises | eml_to_html_include_inline_image.py:70-85 | for `<img style="\5">` the code raises, while the corrected cleaning returns the tag unchanged |
| Dimensions.ShortStyleClean | eml_to_html_include_inline_image.py:76-78 | a stripped style too short to hold `width` or `height` and not ending in `;` is kept as it is |
| Dimensions.DeclShape | eml_to_html_include_inline_image.py:76-77 | a declaration the style passes remove is the property name in any letter case, whitespace, `:`, then a non-empty run without `;`; it ends at the first `;`, which it takes, or at the end of the value |
| Dimensions.DeclFound | eml_to_html_include_inline_image.py:76-77 | conversely, the name, whitespace, `:` and a character other than `;` start a declaration |
| Dimensions.DeclEndsAt | eml_to_html_include_inline_image.py:76-77 | a declaration closed by a `;` is removed up to and including that `;` |
| Dimensions.NotDeclAt | eml_to_html_include_inline_image.py:76-77 | no declaration starts where a letter of the name is missing |
| Dimensions.DeclRemovedAt | eml_to_html_include_inline_image.py:76-77 | a declaration pass removes the first declaration, keeps everything before it, and goes on after it |
| Dimensions.DeclsNone | eml_to_html_include_inline_image.py:76-77 | a style value without a declaration is left unchanged by the pass |
| Dimensions.DeclPassLeavesDecl | eml_to_html_include_inline_image.py:76 | removing `width:1;` from `widwidth:1;th:2` leaves `width:2`, itself a width declaration: one pass does not remove every declaration from what it returns |
| Dimensions.WidthDeclCleaned | eml_to_html_include_inline_image.py:76-78 | the cleaned value of `width:1;color:red` is `color:red` |
| Dimensions.DeclCleaned | eml_to_html_include_inline_image.py:76-78 | a leading width declaration is removed, and a stripped rest with no `w`, `h` or trailing `;` is kept as it is |
| Dimensions.SpacedStyleShape | eml_to_html_include_inline_image.py:82 | the attribute removed when nothing is left is whitespace, then `style=` in exact case, a quote, characters other than quotes, and a quote |
| Dimensions.StyleShape | eml_to_html_include_inline_image.py:80 | the attribute replaced by a non-empty style is `style=` in exact case, a quote, characters other than quotes, and a quote |
| Dimensions.StyleDroppedAt | eml_to_html_include_inline_image.py:79-82 | when nothing is left of the cleaned style, the first whitespace-led exact-case `style="..."` of the tag is removed with its whitespace; the text before it is kept and the removal goes on after it |
| Dimensions.StyleDroppedNone | eml_to_html_include_inline_image.py:79-82 | when nothing is left and the tag has no whitespace-led exact-case `style="..."`, the tag is kept |
| Dimensions.StyleWrittenAt | eml_to_html_include_inline_image.py:79-80 | a non-empty cleaned style is written as `style="<style>"` in place of the first exact-case `style="..."`; the text before it is kept and the writing goes on after it |
| Dimensions.StyleWrittenNone | eml_to_html_include_inline_image.py:79-80 | a tag whose style attribute is not written in exact case keeps it, although its value was read case-insensitively at line 72 |
| Dimensions.NoImgNoMatch | eml_to_html_include_inline_image.py:65-85 | no pass matches where no `<img` opens |
| Template.GroupReferenceFails | eml_to_html_include_inline_image.py:80 | a replacement template with a reference to group 5 and no backslash before it is rejected |
| Template.ParseLiteral | eml_to_html_include_inline_image.py:80 | a template without a backslash expands to itself |
| InlineBody.LastHtml | eml_to_html_include_inline_image.py:143-151 | the HTML part used is a decodable `text/html` part not skipped as an attachment, and no later part is one |
| InlineBody.FirstPlain | eml_to_html_include_inline_image.py:154-160 | the plain part used is the first plain part whose redacted text is non-empty, and no earlier part is one |
| InlineBody.MultipartBody | eml_to_html_include_inline_image.py:130-169 | the body is the last HTML part's processed text when it is non-empty; otherwise the first non-empty plain text escaped in `<pre>`; otherwise the "No readable content" paragraph |
| InlineBody.CollectHtml | eml_to_html_include_inline_image.py:134-151 | after the walk, the HTML body is that of the last HTML candidate, or empty |
| InlineBody.CollectPlain | eml_to_html_include_inline_image.py:153-160 | after the walk, the plain body is that of the first plain candidate, or empty |
| InlineBody.LaterHtmlWins | eml_to_html_include_inline_image.py:143-149 | a later HTML part replaces the HTML body and leaves the plain body alone |
| InlineBody.PlainKept | eml_to_html_include_inline_image.py:154 | once a plain body is set, later parts do not change it |
| InlineBody.HtmlBodyRedacted | eml_to_html_include_inline_image.py:147-149 | an HTML body comes out of the redaction: stripped and spaced only with plain spaces |
| InlineBody.ExtractAgrees | eml_to_html_include_inline_image.py:119-187 | the corrected body equals the code's body whenever the CID step as written returns the corrected result on every HTML text read (InlineBody.CidSafe), for example when no cleaned style holds a backslash (CidRewrite.AsWrittenAgrees) |
| InlineBody.RaisingHtmlUnredacted | eml_to_html_include_inline_image.py:144-151 | when the last HTML part makes the rewriting raise, the code keeps its text as decoded, without redaction |
| InlineBody.EscapedStyleMessage | eml_to_html_include_inline_image.py:143-151 | a message whose HTML part is `<img style="\5">` next to an image: the code's body is that HTML unredacted, and the corrected body is the redacted HTML |
| InlineBody.SingleAgrees | eml_to_html_include_inline_image.py:170-185 | for a single-part message, the corrected and the as-written bodies agree when the CID step as written returns the corrected result on its HTML text (InlineBody.CidSafe) |
| Attachments.ExtractAttachmentsInfo | eml_to_html_include_inline_image.py:189-209 | a record is listed exactly when some part is a named attachment that is not an inline image; every listed name is non-empty |
| Attachments.AttachmentsMembership | eml_to_html_include_inline_image.py:193-207 | the list holds exactly the records of the parts that qualify |
| Attachments.AttachmentAt | eml_to_html_include_inline_image.py:193-207 | the records keep walk order: the k-th qualifying part gives the k-th record |
| Attachments.AttachmentsConcat | eml_to_html_include_inline_image.py:193 | the list of a concatenation is the concatenation of the lists |
| TextBody.ExtractEmailContent | eml_to_html.py:24-71 | the body and flag match the multipart and single-part rules; the flag is set exactly when a multipart message has a decodable, non-attachment HTML part |
| TextBody.CollectContent | eml_to_html_only_text.py:28-56 | the loop over the walk gives the first-HTML-wins result |
| TextBody.FirstHtmlWins | eml_to_html.py:37-43 | the first HTML candidate is returned, redacted and flagged, whatever follows it |
| TextBody.AttachmentIgnored | eml_to_html.py:33-35 | a part marked as attachment, of any type, does not change the result |
| TextBody.PlainBodyReadsBack | eml_to_html_only_text.py:48-54 | with no HTML candidate, the body is `<pre>` + escaped text + `</pre>`, and unescaping the inside gives the first plain part's redacted text |
| TextBody.HtmlFlag | eml_to_html_only_text.py:37-71 | the flag is true exactly when a multipart message has an HTML candidate; a single-part HTML message is not flagged |
| TextBody.HtmlBodyRedacted | eml_to_html_only_text.py:40-43 | a flagged body is redacted: stripped and spaced with plain spaces only |
| TextBody.FirstPartIs | eml_to_html.py:29-56 | the first part meeting a condition is the one with no earlier part meeting it |
| HtmlEscape.UnescapeEscape | eml_to_html.py:54 | `html.escape` with quotes loses nothing: unescaping gives the text back |
| HtmlEscape.Escape | eml_to_html_only_text.py:54 | the escape contains no `<`, `>`, `"` or `'`, so it can stand inside an element or a quoted attribute, and it is never shorter than the text |
| HtmlEscape.EscapePlain | eml_to_html_include_inline_image.py:167 | a text without special characters is escaped to itself |
| Conversion.ShowHeaders | eml_to_html.py:81-84 | the subject defaults to "No Subject" and the date to "Unknown"; both are shown as they are; From and To are the redaction of the header, or of "Unknown" when it is absent |
| Conversion.OnlyAddressesRedacted | eml_to_html_include_inline_image.py:226-229 | the rules affect only From and To: subject and date do not depend on them |
| Conversion.IsEmlIff | eml_to_html.py:185 | a file is converted exactly when its name ends in `.eml` in any mix of cases |
| Conversion.EmlFilesMembership | eml_to_html_only_text.py:183-186 | the list of inputs holds exactly the joined paths of the files found whose names end in `.eml` |
| Conversion.OutputDir | eml_to_html.py:175-176 | without an output directory, pages go to a directory named `html_output` whose parent is the input directory, when that path is not empty and does not end in `/` |
| Conversion.OutputName | eml_to_html.py:159-160 | the page of `name.eml` is `name.html` in the output directory, whatever directory the input came from |
| Conversion.PageName | eml_to_html_include_inline_image.py:368-369 | the page is named after the stem of the input file |
| Conversion.BareSuffixName | eml_to_html_only_text.py:159-160 | a file named just `.eml` is converted, and its stem is `.eml` itself |
| Conversion.SameNameSamePage | eml_to_html_include_inline_image.py:399-402 | two inputs with the same name in different directories write the same page |
| Conversion.SuffixCaseSamePage | eml_to_html_only_text.py:183-186 | `a.eml` and `a.EML` write the same page |
| Paths.JoinBaseName | eml_to_html.py:186 | the last component of a joined path is the name joined |
| Paths.StemOfSuffixed | eml_to_html.py:159 | the stem drops exactly the last suffix |
| Sizes.FormatFileSize | generate_index.py:108-114 | the unit is the first of B, KB, MB, GB with the scaled value below 1024, else TB; the value is the size divided by 1024 once per unit step |
| Sizes.UnitIndexSpec | generate_index.py:110-113 | below TB the size is under 1024 to the next power; above B it is at least 1024 to the unit's power |
| Sizes.UnitIndexIs | generate_index.py:110-114 | these bounds determine the unit |
| Sizes.UnitMonotone | generate_index.py:108-114 | a larger size never gets a smaller unit |
| Sizes.ShownValueBounds | generate_index.py:111-112 | the value shown is below 1024 unless the unit is TB, and at least 1 unless the unit is B |
| Sizes.ScaledSpec | generate_index.py:113 | the scaled value times 1024 to the power of the unit is the size |
| Fields.GroupEnd | generate_index.py:22-26 | the lazy group ends at the first position where the rest of the pattern matches |
| Fields.GroupStripped | generate_index.py:23-26 | for the patterns with `\s*` around the group, the group is already stripped |
| Fields.Values | generate_index.py:28-34 | the i-th pattern gives its stripped group with the table's references replaced one after the other in the code's order (five for the subject and sender, three for the date), or nothing when it does not match in the first 5000 characters |
| Fields.PickSpec | generate_index.py:28-36 | the value kept is that of the first pattern whose value is non-empty and not "Unknown"; otherwise the last pattern that matched; otherwise "Unknown" |
| Fields.FirstGood | generate_index.py:35-36 | the loop stops at the first good value |
| Fields.LastFound | generate_index.py:30-31 | without a good value, the last match overwrites the earlier ones |
| Fields.NoOpenUnknown | generate_index.py:13-69 | a page with no `<` in its first 5000 characters gives "Unknown" for subject, sender and date |
| Fields.PatternsValid | generate_index.py:21-61 | every pattern starts with a non-empty literal and closes with `<` |
| Entities.Decode | generate_index.py:33-34 | the corrected single pass, not the code's chain: decoding never lengthens a text |
| Entities.ChainEncode | generate_index.py:33-34 | the chain of replacements as written undoes the encoding of any text without `&` |
| Entities.ChainAgrees | generate_index.py:33-34 | for a text without `&`, the chain as written and the corrected single pass decode its encoding alike, to the text itself |
| Entities.FullTableChain | generate_index.py:33-34 | the references the chain replaces are distinct, each `&`, then no `&` or `;`, then `;`, and they stand for distinct characters |
| Entities.DecodeEncode | generate_index.py:33-34 | the corrected single-pass decoding undoes the encoding of any text |
| Entities.DecodePlain | generate_index.py:33-34 | the corrected single pass leaves a text without `&` unchanged (the code's chain, here and at line 67, is Entities.DecodeAsWrittenPlain) |
| Entities.DoubleDecoded | generate_index.py:33 | the chain of replacements as written decodes `&amp;lt;` to `<`, although it is the encoding of `&lt;`; the single pass gives `&lt;` |
| Entities.DecodeAsWrittenPlain | generate_index.py:33-34 | the chain as written leaves a text without `&` unchanged |
| Readback.SubjectReadBack | generate_index.py:22-36 | a page whose title holds the escaped subject gives back that subject, when the subject has no apostrophe, no `&` and no surrounding space and the title ends within the first 5000 characters |
| Readback.TitleFound | generate_index.py:22-29 | the title pattern finds the title text when no `<title>`, in any letter case, starts before it, and the title has no `<` and ends within the first 5000 characters |
| Readback.EscapeIsEncode | eml_to_html.py:95 | apart from the apostrophe, the title's escape is the encoding the index decodes |
| IndexEntry.ExtractEmailInfo | generate_index.py:6-106 | a record exists exactly when the file can be examined; it keeps the file's name and size; subject, sender and date are cut to 150, 100 and 50 characters; an unreadable page falls back to the file name and "Unknown" |
| IndexEntry.ChosenSubject | generate_index.py:73-77 | a subject that is "Unknown", "No Subject" or shorter than 3 characters is replaced by the normalized file name; any other is kept |
| IndexEntry.TagEnd | generate_index.py:77 | the leading tag ends at the first `]`, with no newline before it; when no `]` can end it the pattern does not match |
| IndexEntry.NormalizeTagIdempotent | generate_index.py:77 | normalizing the tag twice is normalizing once |
| IndexEntry.NormalizeTagKeepsText | generate_index.py:77 | the normalization changes only whitespace |
| IndexEntry.ConvertedSubjectListed | generate_index.py:20-87 | a converted page with a usable subject without `&` or an apostrophe is listed under that subject, cut to 150 characters |
| IndexEntry.UnmarkedPageListed | generate_index.py:71-87 | a page with no markup in its first 5000 characters is listed under its normalized file name, with sender and date "Unknown" |
| Sorting.SortBySorted | generate_index.py:140 | the sort orders the records by key, comparing code points |
| Sorting.SortByStable | generate_index.py:140 | the records with any one key come out in the order they came in |
| Sorting.SortBy | generate_index.py:140 | the sort is a permutation of its input |
| Sorting.SortBySortedInput | generate_index.py:140 | an input already in order is returned as it is |
| Sorting.InsertSorted | generate_index.py:140 | inserting into a sorted list keeps it sorted |
| Sorting.LexLeTotal | generate_index.py:140 | any two keys are comparable |
| Sorting.LexLeTrans | generate_index.py:140 | the key order is transitive |
| Sorting.LexLeAntisym | generate_index.py:140 | two keys each at most the other are equal |
| IndexPage.CollectMembership | generate_index.py:122-135 | a record is collected exactly when some listed name ending in `.html`, other than `index.html`, gives it |
| IndexPage.CollectCount | generate_index.py:122-135 | one record is collected per listed page whose file can be examined |
| IndexPage.CollectInfos | generate_index.py:123-135 | the loop over the directory listing collects those records in listing order |
| IndexPage.GenerateIndex | generate_index.py:139-157 | the index path is the one lines 450-451 derive (the folder's parent, or `.` when there is none); the table has one row per collected record, and the rows are numbered from 1 in table order and linked as `folder_name/filename` |
| IndexPage.BuildRows | generate_index.py:146-157 | row k shows the k-th sorted record, numbered k+1, linked as `folder_name/filename`, with its formatted size |
| IndexPage.TableSorted | generate_index.py:140-147 | the rows are ordered by lower-cased subject |
| IndexPage.TableStable | generate_index.py:140 | every record appears once, and records with equal lower-cased subjects keep the listing order |
| IndexPage.NestedIndexPath | generate_index.py:450-451 | for a folder `parent/name`, the index is `parent/index.html` |
| IndexPage.NestedLinkResolves | generate_index.py:143-149 | from the index beside `parent/name`, a page's link resolves to the page inside the folder |
| IndexPage.BareLinkResolves | generate_index.py:143-149 | for a folder with no parent, the index is in `.` and the links resolve into the folder |
| IndexPage.DotLinkMisses | generate_index.py:143-149 | as written, for the folder `.` the index is `./index.html` but the links point into `./html/`, where the pages are not |
| IndexPage.DotLinkResolves | generate_index.py:143-149 | corrected, for the folder `.` the links resolve to the pages themselves, and for every other folder the corrected link is the link as written |

## Left out

- File and directory I/O is not modelled: `open`, `os.walk`, `os.listdir`, `os.stat`,
  `makedirs` and writing the pages. A file's text and size are inputs (`None` when reading
  or examining it fails). A directory listing is a sequence in the order the system gives.
- MIME parsing, transfer decoding and `get_filename` are outside the model. A message is
  its parts in walk order, with their already-decoded payloads.
- UTF-8 decoding with `errors='replace'` is a total function supplied by the caller.
- The privacy rules live in a module that is not part of this model. They are an ordered
  list applied by an uninterpreted substitution step.
- The page templates (CSS, the head, the browser-side search and sort script) are not
  modelled, and no member builds a page. The values that go into them are modelled: the
  shown headers (Conversion.ShowHeaders), the body (InlineBody, TextBody) and the rows
  (IndexPage.BuildRows). The title's shape, `<title>`, the escaped subject, `</title>`, is
  assumed by Readback.SubjectReadBack and IndexEntry.ConvertedSubjectListed.
- The modification time of each index record is not modelled, because it is clock- and
  `datetime`-formatting-dependent.
- The printed progress, debug output and counts of successes and failures are not modelled.
- `main()` is not modelled: the fixed folder names and the search for alternatives are
  configuration.
- Path handling is plain `/`-separated strings, without normalization and without
  `pathlib` corner cases beyond `stem`, `basename` and `dirname`.
- `\d` is restricted to ASCII digits; Python also accepts other Unicode decimal digits.
- Case-insensitive matching folds ASCII capitals and the four non-ASCII letters that fold
  onto `i`, `s` and `k`. That is enough for the lower-case ASCII literals of the patterns.
- Sizes.FormatFileSize: gives the value and the unit, not the string with one decimal.
  `.1f` rounding is float formatting, which is not modelled. The attachment size in KB is
  left out for the same reason.
- IndexEntry.ExtractEmailInfo: does not give the `modified` field.
- IndexPage.TableSorted: the key lower-cases ASCII letters only. `str.lower` also maps other
  Unicode capitals, so non-ASCII subjects may sort differently.
- IndexPage.GenerateIndex: gives the index path and the rows, not the page's HTML text.
- Readback.SubjectReadBack: requires that no `<title>`, in any letter case, starts in the
  converter's head before the title. The fixed head the converters write meets this,
  because its `<` is followed only by `!`, `h` and `m`. This is argued here, not proved
  about the template's text.
- Readback.SubjectReadBack: requires a subject without `&`. The chain as written decodes
  the references that `&amp;` produces a second time, so such a subject is not always read
  back (see Findings).
- Dimensions.CleanDims: does not promise that a cleaned style is free of width and height
  declarations. One pass can join the text around a removed declaration into a new one
  (Dimensions.DeclPassLeavesDecl), so the code does not keep that promise either.
- Redaction.AnonymizeKeepsText: states which characters survive the clean-up, not where
  the removed ones were. Redaction.RemovePairsAt states that for one deletion pass.
- Redaction.CleanUpKeeps: the same, for the clean-up on its own.

## Findings

| source | as written | input that shows it | evidently intended | confidence | as-written member | corrected member |
|---|---|---|---|---|---|---|
| eml_to_html_include_inline_image.py:80 | The cleaned style is spliced into the replacement of `re.sub`, which reads it as a template. A backslash in the style is taken as an escape or a group reference, and an invalid one raises `re.error`. The raise skips the HTML part after its raw text was already stored, so the body is shown without redaction. | a multipart message whose HTML part is `<img style="\5">`, next to an inline image, with dimensions not preserved | The style is written back literally. The tag is kept, and the body is redacted like any other. | medium, not executed | Dimensions.EscapedStyleRaises | Dimensions.CleanDimsAgrees |
| generate_index.py:33-34 | `&amp;` is replaced first, so the references it produces are decoded again. The same chain is at lines 50-51 and 67. | a page whose title is `&amp;lt;`, the escape of the subject `&lt;` | Each reference is decoded once, so the subject `&lt;` is read back. | high, not executed | Entities.DoubleDecoded | Entities.DecodeEncode |
| generate_index.py:143-149 | With the folder `.`, the links go through `html/`. The index is written to `./index.html` (lines 450-451), among the pages. | `generate_index_html(".")` with a page `a.html` | Links resolve from the index's directory to the pages. | medium, not executed | IndexPage.DotLinkMisses | IndexPage.DotLinkResolves |
