# Polyglot to Polylang migration, modelled in Dafny

The scripts move a WordPress site from the Polyglot multilingual plugin to
Polylang. Polyglot keeps both languages in one post and marks each language's
text with inline `<lang_en>…</lang_en>` and `<lang_it>…</lang_it>` spans.
Polylang wants one post per language, linked through a `_translations` entry.
The model covers the four scripts that do the work.

- **polyglot2polylang.rb** (modules `Markup`, `Polyglot`, `PolyglotProofs`).
  - `to_english` / `to_italian` strip the markup for one language. The model of
    the script uses them as written (`Markup.StripAsWritten`, with the span body
    `.+?`). `Markup.Strip` is the corrected variant (`.*?`), described under
    "Findings".
  - Pass 1 replaces every post whose content holds a language tag with an English
    and an Italian copy. The copies get fresh ids from the counter `next_post_id`,
    their own guid, slug, link, title and text, a language category and
    `_translations`.
  - Pass 2 replaces every attachment whose parent was split with two copies.
    The copies get fresh ids from the same counter, a language category and
    `_translations`. Each copy's parent becomes the parent copy of its language.
    Unlike pass 1, pass 2 keeps the guid and the text, and always appends
    ` (Italiano)` to the Italian title; link and slug get `-italiano`. For any
    other attachment, pass 2 only records its parent.
  - The bookkeeping hashes become two SQL files: `.attach.sql` and `.names.sql`.
  - Each pass is a fold `Run` over the snapshot of items. It is also a method
    `RunPass` that splices the copies into the document in place and is proved
    equal to the fold. `Migrate` is the whole script; `Migration` specifies it.
- **polylang-localize-tags.rb** (module `LocalizeTags`).
  - A loop gathers the post tags and numbers the Italian copies from a seed.
  - A second loop writes, for each tag, five `INSERT` statements and a blank line.
- **depolyglot.rb** (module `Depolyglot`). One `UPDATE … post_title` statement
  per line of a file of titles, with SQL quote doubling.
- **wxr-separate-attachments.rb** (module `SeparateAttachments`).
  - Two in-place unlink loops split a document into its attachments and
    everything else.
  - The output names are derived from the input name.

The shared modules hold the pieces the scripts have in common:
- `Text`: substring search, `Integer#to_s` with a reader as its inverse, SQL
  quote doubling with a literal reader as its inverse, and Ruby's `$` anchor.
- `Hashes`: Ruby's insertion-ordered `Hash`.
- `Wxr`: the item record.

The strippers are defined by a left-to-right scan, as Ruby's `gsub` performs
it. They are also described independently: a marked-up text is the rendering
of a list of segments (`Markup.Render`), and the text one language's reader
should see is `Markup.Version`. Most properties of the strippers are stated
against that description.

## Model

| member | source | states |
|---|---|---|
| Text.ReadShow | polyglot2polylang.rb:162 | an id rendered with `to_s` reads back as the same integer |
| Text.ShowInjective | polyglot2polylang.rb:154 | distinct ids render to distinct strings |
| Text.Show | polyglot2polylang.rb:162 | `Integer#to_s`. `Text.ReadShow` and `Text.ShowInjective` state that it can be read back |
| Text.Escape | depolyglot.rb:55 | `gsub(/'/, "''")`. `Text.ReadLiteralEscape`, `Text.EscapeAppend` and `Text.EscapeQuoteFree` state what it does |
| Text.ReadLiteralEscape | depolyglot.rb:55 | a value with every `'` doubled, then a closing quote, reads back as exactly that value; what follows the quote is left over |
| Text.EscapeAppend | polylang-localize-tags.rb:67 | quote doubling works character by character: escaping a concatenation is concatenating the escapes |
| Text.EscapeQuoteFree | depolyglot.rb:55 | quote doubling leaves text without a quote unchanged |
| Text.FindFrom | polyglot2polylang.rb:75 | finds the first occurrence at or after a start position, or reports that there is none |
| Hashes.Lookup | polyglot2polylang.rb:248 | `h[k]` finds a value exactly when `k` is a key of the hash |
| Hashes.Put | polyglot2polylang.rb:251 | `h[k] = v` keeps the key order, appending a new key at the end; afterwards `k` maps to `v` and every other key keeps its value |
| Hashes.PutNew | polyglot2polylang.rb:184 | `h[k] = v` for a key not yet present appends the entry at the end |
| Hashes.PutDistinct | polyglot2polylang.rb:286 | assignment never creates a second entry for a key |
| Hashes.LookupEntry | polyglot2polylang.rb:342 | in a hash with distinct keys, each entry is what a lookup of its key finds |
| Hashes.LookupIn | polyglot2polylang.rb:342 | a value found by lookup is an entry that `each` visits |
| Wxr.AttachmentsAppend | wxr-separate-attachments.rb:26-39 | splitting the items by post type commutes with concatenation, so the order of items is kept |
| Wxr.FiltersSnoc | wxr-separate-attachments.rb:26-39 | one more item at the end is kept by exactly one of the two filters |
| Wxr.AttachmentsIn | wxr-separate-attachments.rb:26-31 | the attachments kept are items of the input with post type `attachment` |
| Wxr.AttachmentsDistinct | polyglot2polylang.rb:342-344 | keeping only the attachments keeps the ids distinct |
| Markup.LangTagFromExists | polyglot2polylang.rb:128 | the split test `=~ %r{</?lang_..>}` scan succeeds exactly when a language tag occurs at some position |
| Markup.MarkerIsLangTag | polyglot2polylang.rb:128 | each of the four markers the strippers remove is a tag that the split test detects |
| Markup.NoLangTagUnmarked | polyglot2polylang.rb:75-85 | a text in which the split test finds no tag has no marker, and both strippers, as written and corrected, return it unchanged |
| Markup.ForeignTagDetected | polyglot2polylang.rb:128-135 | the split test also fires on tags of other languages, such as `<lang_fr>`, which neither stripper removes |
| Markup.StripUnmarked | polyglot2polylang.rb:75-85 | a text without `<lang_en>`, `</lang_en>`, `<lang_it>` or `</lang_it>` is returned unchanged for both languages |
| Markup.RemoveSpansRender | polyglot2polylang.rb:75 | step 1 removes exactly the spans of the other language, every other segment is kept as rendered |
| Markup.RemoveMarkersDrop | polyglot2polylang.rb:76 | step 2 finds no stray marker of the other language in a well-formed text once its spans are gone |
| Markup.RemoveMarkersKeep | polyglot2polylang.rb:77 | step 3 unwraps the spans of the target language, leaving their text in place |
| Markup.StripRender | polyglot2polylang.rb:70-86 | stripping a well-formed text for a language gives that language's version: plain text and the language's own spans, in order, without markers |
| Markup.StripAsWrittenRender | polyglot2polylang.rb:75-77 | the stripper as written gives the same version when no span of the other language is empty |
| Markup.VersionInert | polyglot2polylang.rb:70-86 | a language version holds no marker |
| Markup.StripIdempotent | polyglot2polylang.rb:70-86 | stripping a stripped well-formed text again changes nothing |
| Markup.RemoveSpansAgree | polyglot2polylang.rb:75 | without an empty span, `.+?` and `.*?` remove the same spans |
| Markup.StripAgreesWithoutEmptySpans | depolyglot.rb:33-42 | the stripper as written and the corrected one agree on any text with no empty span of the other language |
| Markup.EmptySpanKept | polyglot2polylang.rb:75 | an empty span with no marker of its language after it has no match for `.+?`, so step 1 leaves it in place |
| Markup.EmptySpanSwallowsText | polyglot2polylang.rb:75 | as written, an empty Italian span followed by English text and an Italian span leaves an empty English version; corrected, the English text remains |
| Markup.HasLangTag | polyglot2polylang.rb:128 | the split test `=~ %r{</?lang_..>}`. `Markup.LangTagFromExists` shows that the scan finds a tag exactly when one occurs |
| Markup.Excise | polyglot2polylang.rb:75 | the left-to-right scan of `gsub` for one span pattern. `Markup.RemoveSpansRender`, `Markup.EmptySpanKept` and `Markup.EmptySpanSwallowsText` state what it removes |
| Markup.RemoveSpans | polyglot2polylang.rb:75 | step 1 of the strippers. `Markup.RemoveSpansRender` states that it removes exactly the spans of one language, and `Markup.RemoveSpansAgree` when `.+?` and `.*?` agree |
| Markup.RemoveMarkers | polyglot2polylang.rb:76-77 | steps 2 and 3 of the strippers. `Markup.RemoveMarkersDrop` and `Markup.RemoveMarkersKeep` state what they remove and keep |
| Markup.StripAsWritten | polyglot2polylang.rb:70-86 | `to_english` / `to_italian` as written, used by every model of the scripts. `Markup.StripAsWrittenRender` and `Markup.StripUnmarked` state when they give a language's version, and `Markup.EmptySpanSwallowsText` when they do not |
| Markup.Strip | polyglot2polylang.rb:70-86 | the corrected strippers. `Markup.StripRender` states that they give the version of every well-formed text, and `Markup.StripAgreesWithoutEmptySpans` that they agree with the script on texts without an empty span |
| Polyglot.Multilingual | polyglot2polylang.rb:127-130 | only the content is tested, because `or` binds more loosely than `=`. `PolyglotProofs.TwoSpansMultilingual` and `Markup.NoLangTagUnmarked` state what it detects |
| Polyglot.TranslationsValue | polyglot2polylang.rb:151-155 | the `_translations` value for an id pair. `Text.ReadShow` and `Text.ShowInjective` make distinct pairs give distinct values |
| Polyglot.ItalianLink | polyglot2polylang.rb:187 | `sub(%r{(/?)$}, '-italiano\1')`. `Polyglot.FirstLinkSlot` and `Polyglot.ItalianLinkSingleLine` state where the suffix goes |
| Polyglot.ItalianTitle | polyglot2polylang.rb:196-201 | the Italian title of a split post. `Polyglot.ItalianTitleChanged` and `PolyglotProofs.PlainTitleSuffixed` state how it differs from the original |
| Polyglot.PostEn | polyglot2polylang.rb:161-172 | the English copy of a split post. `PolyglotProofs.FirstPassAt` states each field |
| Polyglot.PostIt | polyglot2polylang.rb:179-205 | the Italian copy of a split post. `PolyglotProofs.FirstPassAt` states each field |
| Polyglot.AttachmentEn | polyglot2polylang.rb:282-290 | the English copy of an attachment. `PolyglotProofs.SecondPassAt` states each field |
| Polyglot.AttachmentIt | polyglot2polylang.rb:297-313 | the Italian copy of an attachment. `PolyglotProofs.SecondPassAt` states each field |
| Polyglot.Step | polyglot2polylang.rb:127-135 | one item of either pass. `Polyglot.StepShape` states that it keeps the item or replaces it by two fresh copies |
| Polyglot.SplitPost | polyglot2polylang.rb:139-205 | pass 1 on a multilingual item. `PolyglotProofs.FirstPassAt`, `PolyglotProofs.FirstPassRecords` and `PolyglotProofs.FirstPassNames` state what it builds and records |
| Polyglot.SplitAttachment | polyglot2polylang.rb:255-313 | pass 2 on an attachment of a split post. `PolyglotProofs.SecondPassAt` and `PolyglotProofs.AttachmentFollowsPost` state what it builds and records |
| Polyglot.AttachStatement | polyglot2polylang.rb:343 | one `.attach.sql` statement. `Polyglot.ParseAttachStatement` reads it back |
| Polyglot.NameStatement | polyglot2polylang.rb:355 | one `.names.sql` statement. `Polyglot.ParseNameStatement` reads it back, and `Polyglot.QuotedNameMisread` shows where that fails |
| Polyglot.Migration | polyglot2polylang.rb:113-358 | the specification of `Polyglot.Migrate`. `PolyglotProofs.MigrationIds`, `PolyglotProofs.MigrationAttachSql` and `PolyglotProofs.MigrationNames` state its properties |
| Polyglot.FirstLinkSlot | polyglot2polylang.rb:187 | the first position where `(/?)$` matches, with no match before it |
| Polyglot.ItalianLinkSingleLine | polyglot2polylang.rb:187 | on a one-line link, `-italiano` is inserted before a trailing `/`, or appended when there is none |
| Polyglot.ItalianTitleChanged | polyglot2polylang.rb:196-201 | the Italian title always differs from the title it was made from |
| Polyglot.StepShape | polyglot2polylang.rb:132-146 | one item is either kept as it is, with the counter unchanged, or replaced by two copies numbered with the next two counter values, with the counter advanced by 2 |
| Polyglot.Run | polyglot2polylang.rb:113-114 | a pass never shrinks the document; it uses two ids per added item; pass 1 leaves `parent_id_map` alone and pass 2 leaves the correction hashes alone |
| Polyglot.Advance | polyglot2polylang.rb:221-224 | inserting the copies before the current item and unlinking it extends the document by one step of the fold |
| Polyglot.FirstPassItem | polyglot2polylang.rb:127-224 | the first loop's body equals one step of pass 1 |
| Polyglot.SecondPassItem | polyglot2polylang.rb:232-327 | the second loop's body equals one step of pass 2 |
| Polyglot.PassItem | polyglot2polylang.rb:127-327 | the loop body of either pass equals one step of that pass |
| Polyglot.RunPass | polyglot2polylang.rb:113-114 | the loop over the snapshot, splicing in place, ends with the document and state of the fold `Run` |
| Polyglot.ParseAttachStatement | polyglot2polylang.rb:343 | every `.attach.sql` statement reads back as the media id and the parent id it was written from |
| Polyglot.ParseNameStatement | polyglot2polylang.rb:355 | a `.names.sql` statement for a slug without a quote reads back as that post id and slug |
| Polyglot.QuotedNameMisread | polyglot2polylang.rb:355 | a slug holding a quote is written unescaped, so its statement does not read back as that slug |
| Polyglot.WriteAttachSql | polyglot2polylang.rb:340-346 | writes one statement per `parent_id_map` entry, in insertion order |
| Polyglot.WriteNamesSql | polyglot2polylang.rb:352-358 | writes one statement per `name_corrections` entry, in insertion order |
| Polyglot.Migrate | polyglot2polylang.rb:113-358 | the script runs pass 1 from the seed, pass 2 from where pass 1 stopped, then writes both SQL files |
| PolyglotProofs.RunAppend | polyglot2polylang.rb:221-224 | a pass over two lists is the pass over the first followed by the pass over the second; each item's copies stand at its position and the other items keep their order |
| PolyglotProofs.RunIds | polyglot2polylang.rb:140-146 | with distinct input ids below the counter, the output ids are distinct; each is an input id or an id allocated during this pass |
| PolyglotProofs.Splits | polyglot2polylang.rb:127-135 | the items pass 1 splits, in document order: as many as `SplitCount` counts, each a multilingual input item |
| PolyglotProofs.SplitsAt | polyglot2polylang.rb:139-146 | a multilingual item is the split item numbered by the number of splits before it, the number that also fixes its ids |
| PolyglotProofs.FirstPassCount | polyglot2polylang.rb:139-146 | pass 1 adds one item and uses two ids for every multilingual item |
| PolyglotProofs.RunAllocationOrder | polyglot2polylang.rb:261-267 | the ids a pass allocates appear in the output in strictly increasing order, and every output id is below the final counter |
| PolyglotProofs.RunAround | polyglot2polylang.rb:113-114 | the output of a pass is the output before an item, that item's replacement, and the output after it |
| PolyglotProofs.FirstPassAt | polyglot2polylang.rb:139-205 | a kept item stays unchanged at its position. A split item becomes two copies at that position, with ids seed + 2·(earlier splits) and one more. Both copies get their guid, their language extras and the English or Italian text, stripped as the script strips it. The English copy keeps link and slug; the Italian copy gets `-italiano` on both and the Italian title |
| PolyglotProofs.FirstPassMap | polyglot2polylang.rb:140-144 | after pass 1, `item_id_map` has an entry exactly for the start keys and the multilingual items' ids |
| PolyglotProofs.FirstPassCorrectionsFrame | polyglot2polylang.rb:183-184 | pass 1 never changes a correction recorded under an id below its counter |
| PolyglotProofs.FirstPassRecords | polyglot2polylang.rb:140-184 | after pass 1, each multilingual item maps to its id pair, and its Italian id maps to its original title and unsuffixed slug |
| PolyglotProofs.SecondPassAt | polyglot2polylang.rb:282-313 | pass 2 copies have new ids and the parent's two ids. They keep guid, text and, in English, title, link and slug. The Italian copy gets ` (Italiano)` on the title and `-italiano` on link and slug; any other item stays unchanged at its position |
| PolyglotProofs.SecondPassKeepsPosts | polyglot2polylang.rb:232-234 | pass 2 leaves every non-attachment where it was |
| PolyglotProofs.SecondPassParents | polyglot2polylang.rb:248-301 | pass 2 records exactly one `parent_id_map` entry for each attachment of its output, in document order, holding that attachment's parent |
| PolyglotProofs.SecondPassMapFrame | polyglot2polylang.rb:248 | pass 2 leaves the entries of ids outside its input untouched, so split posts keep their pairs |
| PolyglotProofs.FirstPassOrigins | polyglot2polylang.rb:133-135 | every pass-1 output item is an input item that is not multilingual, or carries an id allocated by the pass |
| PolyglotProofs.FirstPassReady | polyglot2polylang.rb:113-231 | pass 1 output has distinct ids below the counter, an empty `parent_id_map`, and ids that are input ids or at least the seed |
| PolyglotProofs.MigrationIds | polyglot2polylang.rb:97 | the migrated document has distinct ids, each an input id or an id at least the seed |
| PolyglotProofs.MigrationAttachSql | polyglot2polylang.rb:340-346 | `.attach.sql` holds one statement per attachment of the migrated document, in order, setting that attachment's parent |
| PolyglotProofs.ParentRows | polyglot2polylang.rb:340-346 | a hash keyed by the ids of distinct attachments, in order, mapping each to its parent, writes exactly one statement per attachment, which reads back as that attachment and its parent |
| PolyglotProofs.AttachmentFollowsPost | polyglot2polylang.rb:282-301 | an attachment of a split post becomes two copies whose parents are the post's English and Italian ids |
| PolyglotProofs.SecondPassSplitsAt | polyglot2polylang.rb:248-299 | an attachment whose parent has an id pair is split onto that pair |
| PolyglotProofs.FirstPassNames | polyglot2polylang.rb:183-184 | pass 1 appends exactly one `name_corrections` entry per split item, in document order: the Italian id seed + 2k + 1 of the k-th split item and its original slug |
| PolyglotProofs.MigrationNames | polyglot2polylang.rb:352-358 | `.names.sql` holds exactly one statement per split post, in document order. The k-th sets id seed + 2k + 1 back to the k-th split post's original slug, so there are no omissions and no duplicates |
| PolyglotProofs.MigrationNamesSql | polyglot2polylang.rb:352-358 | for each split post, `.names.sql` sets the Italian copy's slug back to the original, unsuffixed slug |
| PolyglotProofs.TwoSpansMultilingual | polyglot2polylang.rb:128 | a text with an English and an Italian span is detected as multilingual |
| PolyglotProofs.TwoSpansVersions | polyglot2polylang.rb:70-86 | such a text strips to its English span for English and its Italian span for Italian. This holds for the stripper as written, even when a span is empty, and for the corrected one |
| PolyglotProofs.PlainTitleSuffixed | polyglot2polylang.rb:196-201 | a title without markup keeps its English form and gets ` (Italiano)` in Italian |
| PolyglotProofs.ExampleFirstPass | polyglot2polylang.rb:113-225 | pass 1 on a bilingual post and its attachment splits the post and leaves the attachment |
| PolyglotProofs.ExampleSecondPass | polyglot2polylang.rb:230-328 | pass 2 then splits the attachment into 502 and 503, attached to 500 and 501 |
| PolyglotProofs.ExampleMigration | polyglot2polylang.rb:113-358 | the whole script on the example gives the four items, `.attach.sql` for 502→500 and 503→501, and `.names.sql` restoring the slug of 501 |
| PolyglotProofs.MigrationExample | polyglot2polylang.rb:113-358 | end to end: four items with the expected ids, slugs, text, titles and parents, and the two SQL files |
| Depolyglot.LineLength | depolyglot.rb:47 | the first line of a text runs up to and including its first newline, or to the end |
| Depolyglot.Lines | depolyglot.rb:47 | a text has lines exactly when it is non-empty |
| Depolyglot.LinesShape | depolyglot.rb:47 | lines are non-empty, every line but the last ends with a newline, the last ends with the text's last character, and no line holds a newline before its end |
| Depolyglot.LinesConcat | depolyglot.rb:47 | the lines put back together are the text |
| Depolyglot.LinesAppend | depolyglot.rb:47 | the lines of a text that ends with a newline, followed by more text, are its lines followed by the lines of the rest |
| Depolyglot.ChompBang | depolyglot.rb:47 | `chomp!` gives nil exactly for a line ending in neither `\n` nor `\r`; otherwise a prefix of the line, two characters shorter for `\r\n` and one character shorter in every other case |
| Depolyglot.ChompLines | depolyglot.rb:47 | every line but the last chomps; the last gives nil exactly when the text ends in neither `\n` nor `\r` |
| Depolyglot.Statement | depolyglot.rb:55 | the statement for one title line. `Depolyglot.ParseStatementLine` reads it back |
| Depolyglot.ParseStatementLine | depolyglot.rb:55 | each statement reads back as the Italian title to set and, as the title to find, the English title with ` (Italiano)`, whatever quotes they hold. Both titles are stripped as the script strips them |
| Depolyglot.WriteAll | depolyglot.rb:53-56 | the write loop over the chomped lines. `Depolyglot.WriteAllUpTo` and `Depolyglot.WrittenStatements` state what it writes |
| Depolyglot.ConvertAsWritten | depolyglot.rb:47-56 | the script as written. `Depolyglot.ConvertOutcome` states its outcome |
| Depolyglot.WriteAllUpTo | depolyglot.rb:53-56 | the write loop writes one statement per chomped line until the first nil, and fails there |
| Depolyglot.Convert | depolyglot.rb:53-56 | corrected: exactly one statement per input line |
| Depolyglot.ConvertOutcome | depolyglot.rb:47-56 | as written, the script fails exactly when the text ends in neither `\n` nor `\r`, after writing the statements of all lines but the last; otherwise it writes all of them |
| Depolyglot.ConvertAppend | depolyglot.rb:53-56 | statements are written in line order: converting two files one after the other is converting them joined |
| Depolyglot.StatementsAppend | depolyglot.rb:53-56 | the statements of two lists of lines are the statements of the first followed by those of the second |
| Depolyglot.WrittenStatements | depolyglot.rb:53-56 | the loop writes the statements of the lines before the first line whose `chomp!` is nil, and fails there when there is one |
| Depolyglot.OutcomeOfLines | depolyglot.rb:47-56 | when only the last line can fail to chomp, the loop fails exactly when it does, after the statements of every other line |
| LocalizeTags.PostTags | polylang-localize-tags.rb:36-38 | only tags with a `wp:tag_slug` are processed, in document order |
| LocalizeTags.Localize | polylang-localize-tags.rb:40-51 | the English and Italian record of one tag. `LocalizeTags.GatherReference` states its fields |
| LocalizeTags.GatherStep | polylang-localize-tags.rb:36-53 | one iteration of the gathering loop. `LocalizeTags.GatherRaisesAfter` and `LocalizeTags.GatherReference` state its effect |
| LocalizeTags.Gather | polylang-localize-tags.rb:32-54 | the gathering loop as a fold. `LocalizeTags.GatherTags` and `LocalizeTags.GatherReference` state what it computes |
| LocalizeTags.GatherTags | polylang-localize-tags.rb:32-54 | the gathering loop, with its `next_term_id` counter, computes `Gather` |
| LocalizeTags.GatherRaisesAfter | polylang-localize-tags.rb:42-44 | once a processed tag without `wp:term_id` or `wp:tag_name` has raised, nothing after it is gathered |
| LocalizeTags.GatherReference | polylang-localize-tags.rb:36-53 | gathering fails exactly when a processed tag lacks a term id or name. Otherwise the k-th processed tag gets Italian id seed + k, so skipped tags use none. Its Italian slug is the slug with `-it`, its name is kept, and its English id is the `wp:term_id` text |
| LocalizeTags.TagStatements | polylang-localize-tags.rb:67-75 | six writes per tag |
| LocalizeTags.TagMetaSqlLength | polylang-localize-tags.rb:60-76 | the file holds six writes per tag |
| LocalizeTags.TagMetaSqlAt | polylang-localize-tags.rb:60-76 | write 6k + m is the m-th write of tag k: the groups follow the tag order and do not interleave |
| LocalizeTags.WriteTagMeta | polylang-localize-tags.rb:59-77 | the writing loop produces the groups of all tags in order |
| LocalizeTags.Run | polylang-localize-tags.rb:25-77 | the script writes nothing when gathering fails, and otherwise the statement groups of the gathered tags |
| LocalizeTags.ParseTermsInsertPair | polylang-localize-tags.rb:67 | the `wp_terms` insert reads back as the Italian id, name and slug, with quotes in name and slug doubled and undone |
| LocalizeTags.TermsInsert | polylang-localize-tags.rb:67 | the `wp_terms` insert. `LocalizeTags.ParseTermsInsertPair` reads it back |
| LocalizeTags.TranslationRows | polylang-localize-tags.rb:72-73 | both `_translations` rows carry one and the same value, which reads back as the Italian id, then the English id |
| LocalizeTags.ParseTagTranslations | polylang-localize-tags.rb:72-73 | the serialised `_translations` value reads back as the Italian id, then the English id |
| LocalizeTags.TagMetaSqlTerms | polylang-localize-tags.rb:60-67 | write 6k of the file reads back as the Italian term of tag k |
| LocalizeTags.LocalizeTagsTerms | polylang-localize-tags.rb:32-67 | end to end: the first statement of the k-th processed tag creates the term with id seed + k, the tag's name and its slug with `-it` |
| SeparateAttachments.Document.constructor | wxr-separate-attachments.rb:19 | a document holds the items it was loaded with |
| SeparateAttachments.Document.Dup | wxr-separate-attachments.rb:20 | `dup` gives a new document with the same items |
| SeparateAttachments.Document.Unlink | wxr-separate-attachments.rb:29 | `unlink` removes one item and the others close up in order |
| SeparateAttachments.DeleteNonAttachments | wxr-separate-attachments.rb:26-31 | the first loop leaves exactly the attachments, in document order |
| SeparateAttachments.DeleteAttachments | wxr-separate-attachments.rb:34-39 | the second loop leaves exactly the other items, in document order |
| SeparateAttachments.VisitStep | wxr-separate-attachments.rb:26-39 | one visit of a deletion loop finds the listed item at the position after the items kept so far; keeping or unlinking it filters one item more |
| SeparateAttachments.Separate | wxr-separate-attachments.rb:19-39 | the loaded document becomes the attachments document and its copy the posts document |
| SeparateAttachments.SplitPartition | wxr-separate-attachments.rb:26-39 | every item lands in exactly one document, as often as it occurred: attachments in one, all others in the other |
| SeparateAttachments.ExtAt | wxr-separate-attachments.rb:22 | the first position where `\.xml$` matches, or none |
| SeparateAttachments.ExtAtSingleLine | wxr-separate-attachments.rb:22-23 | in a one-line name, `.xml` matches only as its last four characters |
| SeparateAttachments.OutputName | wxr-separate-attachments.rb:22-23 | `sub(/\.xml$/, …)`. `SeparateAttachments.OutputNameSingleLine` and `SeparateAttachments.OutputNamesDistinct` state the names it gives |
| SeparateAttachments.OutputNameSingleLine | wxr-separate-attachments.rb:22-23 | a name ending in `.xml` gets that extension replaced; any other one-line name is used as it is |
| SeparateAttachments.OutputNamesDistinct | wxr-separate-attachments.rb:22-23 | the two output names differ from each other and from the input exactly when the input ends in `.xml` |
| SeparateAttachments.WrittenFiles | wxr-separate-attachments.rb:42-50 | the files the script leaves, by name. `SeparateAttachments.WrittenFilesKept` and `SeparateAttachments.WrittenFilesClash` state their contents |
| SeparateAttachments.WrittenFilesKept | wxr-separate-attachments.rb:22-50 | for an input `*.xml`, `*.attachments.xml` holds the attachments and `*.posts.xml` the rest, together every input item once |
| SeparateAttachments.WrittenFilesClash | wxr-separate-attachments.rb:22-50 | for any other one-line input name, the posts document overwrites the input and the attachments document is lost |

## Left out

- XML parsing, XPath, CDATA sections and writing XML files are not modelled. A document is the list of its items. Every item is assumed to have every field the scripts read: the scripts fail on a missing element, and the model does not cover that.
- File I/O, command-line arguments and the `puts` debug output are not modelled. The counter seeds are parameters, and the SQL files are lists of the strings passed to `write`.
- Ids are integers. Parsing them with `to_i` is not modelled.
- `next_term_id` and `GUID_ATTACHMENT_BASE_URL` in polyglot2polylang.rb are never used, so they are not modelled.
- Remapping the parents of pages is a to-do in polyglot2polylang.rb and is not implemented there, so it is not modelled.
- `title_corrections` is kept in the state because the first pass fills it. No file is written from it, and neither is one here.
- `item_id_map` is a Dafny `map`, because the script never iterates over it. `parent_id_map` and `name_corrections` keep insertion order, because the SQL files follow it.
- Only the fixed patterns the scripts use are modelled, not general regular expressions. Escaping of `&`, `<` and `>` by `inner_html=` versus `content=` is not modelled.
- wxr-itemids.rb and snippets.rb are not part of this model.
- The `.tagmeta.sql` file name and the three polyglot2polylang.rb output file names are not modelled. The names in wxr-separate-attachments.rb are.
- Markup.StripRender, Markup.StripAsWrittenRender, Markup.StripIdempotent: proved for well-formed texts only. A well-formed text is a list of plain and language segments in which every segment's text is inert: it holds no marker and does not end with the beginning of one. This excludes nested spans, and also plain text such as `a <` directly before a span. Other texts are covered only by the scan definition itself.
- Polyglot.ParseNameStatement: the slug is written without quote doubling, so read-back is proved only for slugs without a quote. Polyglot.QuotedNameMisread shows what a quote does. WordPress slugs normally hold no quote.
- Polyglot.ItalianTitleChanged: the Italian title differs from the original title. It can still equal the English title. For example, `a</lang_en>` has English and Italian title `a`.
- Polyglot.ItalianLinkSingleLine, SeparateAttachments.OutputNameSingleLine: stated for one-line values. The definitions follow Ruby's `$`, which also matches before a newline.
- LocalizeTags.TagStatements: only the `wp_terms` insert and the two `_translations` rows are read back. The `post_tag` taxonomy row and the `_language` value `1561` appear in the definition as constants.

## Findings

| source | as written | input that shows it | evidently intended | confidence | as-written member | corrected member |
|---|---|---|---|---|---|---|
| polyglot2polylang.rb:75 | `.+?` needs a non-empty span body. An empty `<lang_it></lang_it>` therefore matches up to the next `</lang_it>` and removes the English text in between. The same holds at lines 83, depolyglot.rb:33 and 40 | content `<lang_it></lang_it><lang_en>Hi</lang_en><lang_it>Ciao</lang_it>`: the English version is empty | English version `Hi`: each span of the other language is removed on its own, as the comment at lines 73-74 says | not executed | Markup.EmptySpanSwallowsText | Markup.StripRender |
| depolyglot.rb:47 | `chomp!` returns nil for a last line without a line ending, and the write loop then fails on it. The statement for that last line is never written | a file holding `Ciao` with no final newline: no statement, then a failure | one statement per line, the line ending removed where there is one | not executed | Depolyglot.ConvertOutcome | Depolyglot.Convert |
