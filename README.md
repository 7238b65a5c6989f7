# latexdiffcite: the citation-formatting engine

latexdiffcite prepares two revisions of a LaTeX document for `latexdiff`. In
each revision it replaces every `\cite`, `\citet` and `\citep` command by the
written-out author-year text the command would print. It then lists every cited
key in a `\nocite{...}` so that the bibliography keeps all the entries.

This project models that engine in Dafny, one revision at a time, and proves
what each stage guarantees:

- `RefKeys`: comment removal, the split of a citation argument on `\s*,\s*`,
  and the ordered, append-only key list of a revision.
- `CaptureGroups`: the capture groups of the bbl regex per key, and the
  `%CG<n>%` placeholders filled from them. This gives the (author, year) pair
  of a key when the revision has a bbl file.
- `AuthorSplit` and `BibTokens`: the pair of a key when the revision has bib
  files instead. This covers the split of the author field on `\s+and\s+`,
  surname extraction, the et-al truncation and `format_authorlist`.
- `Duplicates`: an author-year pair shared by several keys gets the letters
  `a`, `b`, `c`, … appended to its years, in citation order.
- `Render`: `format_refs`, which renders one citation command. It writes the
  start and end texts, the prenote and postnote, runs of consecutive
  same-author references merged into one author with several years, the
  `%NUMERIC%` number, and `\ldiffentity{...}` protection wrappers.
- `RenderFacts`: what a rendered citation looks like. The runs are maximal and
  cover the references. The separators sit exactly between runs. The notes are
  placed as stated. Every brace the renderer opens is closed.
- `Document`: `replace_refs_in_tex`. It replaces each citation command
  everywhere in the text, then inserts the `\nocite` line and the
  `\ldiffentity` declaration.
- `Revision`: `process_revision` for one revision, and the old revision
  followed by the new one.

The source keeps its configuration and its per-revision data in class
attributes, looked up as `'refkeys_' + oldnew`. Here the configuration is an
immutable `Config` value, `Configuration.Defaults()` being `load_defaults`.
A revision's data are two records:

- `Sources` holds what a revision brings.
- `References` holds its key list, capture groups and author-year pairs.

The regex engine is not modelled. Each regex search of the source becomes a
given value in `Entities`:

- `CiteMatch` is one citation command found by the scan. It holds the
  command's text, its name, its zero to two bracket notes and its argument
  string.
- `BibSource` holds a bib file's text and, per key, the author and year fields
  the entry regexes extract.
- `BblSource` holds the bbl text and, per key, the capture groups of the bbl
  regex.

Imperative parts of the source are methods with loops, each proved equal to a
function that specifies it. These are the key collection, the capture-group
loop, the per-key loops over bib and bbl files, the two loops of
`correct_duplicate_authors`, the `pop(0)` loops of `format_refs` and the
replacement loop of `replace_refs_in_tex`. The properties are lemmas about
those functions.

All Python errors the core raises become `Failure` values of the `Error`
datatype:

| Python error | `Error` value |
|---|---|
| `ValueError` for a key missing from the bbl file | `KeyNotInBbl` |
| `ValueError` for a bbl regex with no match | `NoBblMatch` |
| `ValueError` for a key in no bib file | `KeyNotInBib` |
| `IndexError` for an entry regex with no match | `EntryNotMatched` |
| `AttributeError` for a missing author field | `AuthorFieldMissing` |
| `AttributeError` for a missing year field | `YearFieldMissing` |
| `IndexError` past the 26th letter | `TooManyDuplicates` |
| `KeyError` for an unformatted command | `UnknownCommand` |
| `KeyError` for a key the tables lack | `UnknownKey` |
| `ValueError` from `list.index` for a key missing from the key list | `UnknownKey` |
| `KeyError`, `IndexError` or `ValueError` from `str.format` on an author-list template | `FormatKeyError`, `FormatIndexError`, `FormatValueError`, produced only by the as-written `BibTokens.FormatAuthorListAsWritten` of the second finding; the bib stage uses the corrected join, which cannot fail |

## Model

| member | source | states |
|---|---|---|
| Configuration.DefaultsUseAuthorYear | src/latexdiffcite/latexdiffcite.py:50-81 | the built-in command formats write `%AUTHOR%` or `%YEAR%`, so the bib stage resolves entries rather than taking the numeric shortcut |
| RefKeys.RemoveCommentsByLines | src/latexdiffcite/latexdiffcite.py:396-400 | deleting every `%` up to the end of its line equals cutting each line at its first `%` and joining the lines again |
| RefKeys.RemoveCommentsNoPercent | src/latexdiffcite/latexdiffcite.py:396-400 | the comment-free text contains no `%` |
| RefKeys.SplitKeys | src/latexdiffcite/latexdiffcite.py:387 | the argument splits into exactly as many keys as it has comma-separated pieces (what each key holds is stated by `SplitKeysShape`) |
| RefKeys.SplitKeysShape | src/latexdiffcite/latexdiffcite.py:387 | the comma-separated pieces rebuild the argument, and key `i` is piece `i` less whitespace on its sides, cut only where the piece borders a comma: the first piece keeps its left side, the last its right side |
| RefKeys.SplitKeysOfSpaceless | src/latexdiffcite/latexdiffcite.py:387 | for an argument without whitespace, joining the keys with commas gives the argument back |
| RefKeys.NewKeys | src/latexdiffcite/latexdiffcite.py:389 | a key is new if and only if it is in the argument and not yet in the list (the kept sequence itself, with order and repeats, is fixed by `NewKeysFilter`) |
| RefKeys.NewKeysFilter | src/latexdiffcite/latexdiffcite.py:389 | the comprehension is a filter: the new keys of `a + b` are those of `a` followed by those of `b`, and one key is kept if and only if it is not yet in the list |
| RefKeys.NewKeysCount | src/latexdiffcite/latexdiffcite.py:389 | a key not yet in the list is kept as often as the argument holds it, any other key never |
| RefKeys.NewKeysInOrder | src/latexdiffcite/latexdiffcite.py:389 | the new keys keep the argument's order |
| RefKeys.CollectRefKeys | src/latexdiffcite/latexdiffcite.py:375-393 | the loop with `extend` builds exactly the as-written key list |
| RefKeys.KeysAppendOnly | src/latexdiffcite/latexdiffcite.py:378-391 | the list left after any prefix of the commands is a prefix of the final list |
| RefKeys.KeysAppendedIffAbsent | src/latexdiffcite/latexdiffcite.py:386-391 | command `i` only appends; the appended keys keep the argument's order, and each key earlier commands did not cite is appended as often as the argument holds it, any other never |
| RefKeys.KeysCollected | src/latexdiffcite/latexdiffcite.py:383-391 | a key is collected if and only if some command cites it |
| RefKeys.CollectExample | tests/test_latexdiffcite.py:359-364 | the argument `foo, bar` yields `['foo', 'bar']` |
| RefKeys.RepeatedKeyKeptTwice | src/latexdiffcite/latexdiffcite.py:389-391 | as written, `\cite{a, a}` yields the list `[a, a]`, which is not duplicate-free |
| RefKeys.UniqueKeysFacts | src/latexdiffcite/latexdiffcite.py:376 | the corrected list is duplicate-free and holds exactly the cited keys |
| RefKeys.CollectUniqueRefKeys | src/latexdiffcite/latexdiffcite.py:375-393 | the corrected loop returns the distinct cited keys in order of first citation |
| RefKeys.AsWrittenAgreesWithoutRepeats | src/latexdiffcite/latexdiffcite.py:386-391 | when no single argument repeats a key, the as-written and the corrected lists are equal |
| RefKeys.RepeatedKeyKeptOnce | src/latexdiffcite/latexdiffcite.py:376 | the corrected list for `\cite{a, a}` is `[a]` |
| CaptureGroups.Placeholder | src/latexdiffcite/latexdiffcite.py:473 | the placeholder of a group starts and ends with `%` and holds no brace |
| CaptureGroups.PlaceholderInjective | src/latexdiffcite/latexdiffcite.py:473 | different groups have different placeholders |
| CaptureGroups.ReplaceCaptureGroups | src/latexdiffcite/latexdiffcite.py:469-474 | the loop replaces group after group, giving the template with all groups applied |
| CaptureGroups.ApplyFourGroups | src/latexdiffcite/latexdiffcite.py:472-473 | four groups are four replacements in order, a group that did not take part counting as `''` |
| CaptureGroups.ApplyGroupsNoPercent | src/latexdiffcite/latexdiffcite.py:469-474 | a template without `%` comes back unchanged, whatever the groups |
| CaptureGroups.ApplyGroupsBalanced | src/latexdiffcite/latexdiffcite.py:469-474 | balanced groups in a balanced template give balanced text |
| CaptureGroups.DefaultBblTokens | src/latexdiffcite/latexdiffcite.py:45-49 | with the built-in bbl templates the author is group 1 and the year is group 2 followed by group 3 |
| CaptureGroups.BblGroups | src/latexdiffcite/latexdiffcite.py:418-435 | the lookup fails if and only if the key is absent from the bbl text or the regex does not match; the error says which, and otherwise the groups are the match's |
| CaptureGroups.NoGroups | src/latexdiffcite/latexdiffcite.py:409-413 | without a bbl text every collected key gets the empty group tuple |
| CaptureGroups.CaptureGroupsFromBbl | src/latexdiffcite/latexdiffcite.py:403-439 | the empty table without a bbl text; otherwise each key's groups, failing at the first key the bbl file lacks |
| CaptureGroups.AuthorYearFromBbl | src/latexdiffcite/latexdiffcite.py:442-466 | every collected key and no other gets the two bbl templates filled with its groups |
| AuthorSplit.SplitAuthors | src/latexdiffcite/latexdiffcite.py:559 | an author field always yields at least one author |
| AuthorSplit.SplitAuthorsFacts | src/latexdiffcite/latexdiffcite.py:559 | the authors and the separators rebuild the field; each separator is whitespace, `and`, whitespace; no author contains one; no author borders a separator with whitespace; each separator is the leftmost: the author before it, with the separator's first character, holds no whitespace-`and`-whitespace; no author between two separators is empty, since a separator takes the whole whitespace run after it |
| AuthorSplit.SingleAuthor | src/latexdiffcite/latexdiffcite.py:559 | a field without a separator is one author, the field itself |
| BibTokens.RawSurname | src/latexdiffcite/latexdiffcite.py:562-567 | in comma mode the text before the first comma, otherwise the text after the last space |
| BibTokens.RemoveBraces | src/latexdiffcite/latexdiffcite.py:570 | the result holds exactly the characters of the input other than braces (their order and number are fixed by `RemoveBracesFilter`) |
| BibTokens.RemoveBracesFilter | src/latexdiffcite/latexdiffcite.py:570 | deleting braces is a filter: it works piece by piece, and a single character is kept if and only if it is not a brace |
| BibTokens.RemoveBracesIdempotent | src/latexdiffcite/latexdiffcite.py:570 | deleting the braces twice is deleting them once |
| BibTokens.CleanSurname | src/latexdiffcite/latexdiffcite.py:570 | a cleaned surname holds no brace and is no longer than the raw one |
| BibTokens.SurnamesShape | src/latexdiffcite/latexdiffcite.py:561-570 | surname `i` comes from author `i`, read in comma mode if and only if any author holds a comma |
| BibTokens.CommaModeWholeName | src/latexdiffcite/latexdiffcite.py:562-564 | in comma mode an author without a comma keeps the whole name as surname |
| BibTokens.FormatAuthorListJoin | src/latexdiffcite/latexdiffcite.py:604-611 | one name alone; two names joined by the last-kind separator; otherwise all but the last joined by the first-kind separator, then `,` if and only if the serial comma is on, then the last-kind separator and the last name |
| BibTokens.UniformAuthorList | src/latexdiffcite/latexdiffcite.py:604-611 | with one separator and no serial comma the list is a plain join |
| StrFormat.FormatLiteral | src/latexdiffcite/latexdiffcite.py:608-611 | `str.format` copies text without braces as it stands |
| StrFormat.FormatAutoField | src/latexdiffcite/latexdiffcite.py:608-611 | a `{}` field takes the next argument |
| StrFormat.FormatNamedField | src/latexdiffcite/latexdiffcite.py:608-611 | a field holding a name fails with a `KeyError` for that name, as there are no keyword arguments |
| BibTokens.AsWrittenAgreesBraceFree | src/latexdiffcite/latexdiffcite.py:604-611 | when neither separator holds a brace, the template filled by `str.format` is the join the corrected function describes |
| BibTokens.BracedSeparatorFails | src/latexdiffcite/latexdiffcite.py:604-611 | as written, a last-kind separator holding a named field `{name}` makes two names fail with `KeyError(name)`, where the join writes the separator out |
| BibTokens.BracedAndFails | src/latexdiffcite/latexdiffcite.py:604-611 | as written, the separator ` {and} ` with `Foo`, `Bar` raises `KeyError('and')`; the join gives `Foo {and} Bar` |
| BibTokens.AuthorListExamples | tests/test_latexdiffcite.py:343-357 | `Foo`, `Foo and Bar`, `Foo, Bar, and Baz`, and `Foo`, `Foo & Bar`, `Foo, Bar & Baz` |
| BibTokens.DefaultAuthorNames | src/latexdiffcite/latexdiffcite.py:572-576 | with the built-in settings one or two authors are written out and three or more become `first et~al.` |
| BibTokens.EtAlKeepsFirst | src/latexdiffcite/latexdiffcite.py:573-574 | a list longer than the maximum is its first surname and the et-al text, whatever the others |
| BibTokens.EntryTokens | src/latexdiffcite/latexdiffcite.py:553-585 | an entry fails if and only if it lacks the author or the year field, naming the author first; otherwise the written-out author and the year field |
| BibTokens.ResolveInBibs | src/latexdiffcite/latexdiffcite.py:537-597 | the key is not found if and only if no bib text contains it; otherwise the first bib file that contains it decides |
| BibTokens.ResolveKey | src/latexdiffcite/latexdiffcite.py:539-597 | the search over the bib files stops at the first that contains the key |
| BibTokens.AuthorYearFromBib | src/latexdiffcite/latexdiffcite.py:521-601 | the numeric shortcut, or every key resolved in order, failing at the first failure, then disambiguated |
| BibTokens.NumericModeIgnoresBibs | src/latexdiffcite/latexdiffcite.py:526-531 | without author or year tokens every key gets `('', '')` and the bib files play no part |
| BibTokens.MissingKeyFails | src/latexdiffcite/latexdiffcite.py:595-597 | a key no bib file mentions makes the bib stage fail, and when every earlier key resolves, the error is `KeyNotInBib` for that key |
| BibTokens.BibAuthorsKept | src/latexdiffcite/latexdiffcite.py:585-601 | on success each key keeps the author its entry gave, and its year starts with the entry's year |
| BibTokens.BibFileName | src/latexdiffcite/latexdiffcite.py:506-507 | the name ends in `.bib`; a name that already did is unchanged, any other gains exactly `.bib` |
| BibTokens.BibFileNameIdempotent | src/latexdiffcite/latexdiffcite.py:506-507 | naming a file twice changes nothing |
| BibTokens.BibFileNames | src/latexdiffcite/latexdiffcite.py:505-507 | one file name per comma-separated piece: name `i` is piece `i`, with `.bib` appended unless the piece already ends in it |
| Duplicates.GroupOf | src/latexdiffcite/latexdiffcite.py:624-632 | a key is in the group of a pair if and only if it is collected and has that pair (the group's order and repeats are fixed by `GroupOfFilter`) |
| Duplicates.GroupOfFilter | src/latexdiffcite/latexdiffcite.py:624-632 | a group is a filter of the key list: the group of `a + b` is that of `a` followed by that of `b`, and one key is kept if and only if it has the pair |
| Duplicates.PositionInGroup | src/latexdiffcite/latexdiffcite.py:624-632 | the key at position `j` stands in its group right after the earlier keys with its pair |
| Duplicates.PairsInOrderPrefix | src/latexdiffcite/latexdiffcite.py:624-632 | the pairs met among the first `j` keys come first in the order of pairs |
| Duplicates.GroupByPair | src/latexdiffcite/latexdiffcite.py:624-632 | the first loop yields each pair's group and the pairs, each once, in order of first appearance |
| Duplicates.AppendLetters | src/latexdiffcite/latexdiffcite.py:637-647 | fails if and only if the group has more than 26 members; otherwise each member's current year gains the letters of its positions and nothing else changes |
| Duplicates.CorrectDuplicateAuthors | src/latexdiffcite/latexdiffcite.py:614-647 | the two loops compute the disambiguated table |
| Duplicates.LetterGroups | src/latexdiffcite/latexdiffcite.py:634-647 | the second loop, over the groups in any order without repetition, computes the disambiguated table |
| Duplicates.DisambiguatedExtendsYear | src/latexdiffcite/latexdiffcite.py:642-647 | a disambiguated key keeps its author, and its year starts with the old year |
| Duplicates.DisambiguatedKeepsAuthors | src/latexdiffcite/latexdiffcite.py:642-647 | disambiguation keeps the table's keys and every author string |
| Duplicates.SingletonUntouched | src/latexdiffcite/latexdiffcite.py:636 | a key whose pair no other key shares keeps its pair |
| Duplicates.LetterOfPosition | src/latexdiffcite/latexdiffcite.py:638-644 | with each key collected once, a key sharing its pair with another gets the letter whose index is the number of earlier keys with that pair |
| Duplicates.TooLargeGroupFails | src/latexdiffcite/latexdiffcite.py:644 | a group of more than 26 keys makes disambiguation fail |
| Duplicates.DisambiguatedPairsUnique | src/latexdiffcite/latexdiffcite.py:614-616 | with each key collected once and digit-only years, no two keys share a pair afterwards |
| Render.FirstUnknown | src/latexdiffcite/latexdiffcite.py:733-751 | none if and only if every reference is known; otherwise the first reference the tables lack |
| Render.IndexOf | src/latexdiffcite/latexdiffcite.py:743 | `list.index`: the position of the first occurrence |
| Render.RunLenExact | src/latexdiffcite/latexdiffcite.py:761-773 | the run at the front has length `k` when its references all merge and the next one does not |
| Render.RunLenMaximal | src/latexdiffcite/latexdiffcite.py:761-773 | the references of the run at the front all merge, and the next one does not |
| Render.CollectYears | src/latexdiffcite/latexdiffcite.py:757-773 | the inner loop consumes exactly the maximal run and builds its year token |
| Render.RenderFirstRun | src/latexdiffcite/latexdiffcite.py:728-780 | one pass of the outer loop renders exactly the first maximal run and leaves the rest |
| Render.AppendRefs | src/latexdiffcite/latexdiffcite.py:725-784 | the outer loop appends all rendered runs with the reference separator between them |
| Render.FormatRefs | src/latexdiffcite/latexdiffcite.py:697-795 | the formatted citation, failing for an unformatted command, then for an unknown key; also reports whether notes given to `\citet` were dropped |
| RenderFacts.RunsConcat | src/latexdiffcite/latexdiffcite.py:725-784 | the runs cover the references exactly, in order |
| RenderFacts.RunsMaximal | src/latexdiffcite/latexdiffcite.py:733-735 | inside a run every reference merges with the next, and the last of a run does not merge with the first of the next |
| RenderFacts.MergedRunAuthors | src/latexdiffcite/latexdiffcite.py:761 | a run shares one author string, which is non-empty when the run has several references |
| RenderFacts.EmptyAuthorAlone | src/latexdiffcite/latexdiffcite.py:761 | a reference with an empty author is a run of its own |
| RenderFacts.RenderRefsJoin | src/latexdiffcite/latexdiffcite.py:783-784 | the rendered references are the rendered runs joined by the reference separator |
| RenderFacts.NoAuthorsNoMerging | src/latexdiffcite/latexdiffcite.py:526-531 | with the numeric shortcut's empty authors, every reference is a run of its own |
| RenderFacts.Framed | src/latexdiffcite/latexdiffcite.py:713-791 | the citation starts with the start text and ends with the end text |
| RenderFacts.PostnotePlacement | src/latexdiffcite/latexdiffcite.py:669-675 | one bracket group is the postnote: after the postnote separator, just before the end text, and absent when empty |
| RenderFacts.NotesPlacement | src/latexdiffcite/latexdiffcite.py:715-788 | two bracket groups: the prenote and its separator right after the start text, the postnote before the end text, each absent when empty |
| RenderFacts.NoNotesPlacement | src/latexdiffcite/latexdiffcite.py:713-791 | without bracket groups the references sit right between the start and end texts |
| RenderFacts.CitetDropsNotes | src/latexdiffcite/latexdiffcite.py:703-707 | a `\citet` renders the same whatever notes it was given |
| RenderFacts.FormatRefsErrors | src/latexdiffcite/latexdiffcite.py:710-743 | an unformatted command fails as such; otherwise the first unknown key is the error |
| RenderFacts.YearTokenBalanced | src/latexdiffcite/latexdiffcite.py:757-771 | with brace-free years a run's year token is balanced, wrappers included |
| RenderFacts.RenderRunBalanced | src/latexdiffcite/latexdiffcite.py:733-780 | a rendered run is balanced, its outer wrapper included |
| RenderFacts.RenderRefsBalanced | src/latexdiffcite/latexdiffcite.py:720-784 | with balanced templates, authors and groups and brace-free years, every `\ldiffentity{` the renderer opens is closed |
| RenderFacts.FormatRefsBalanced | src/latexdiffcite/latexdiffcite.py:697-795 | the whole citation is balanced when its frame and notes are too |
| RenderFacts.DefaultFormatsBalanced | src/latexdiffcite/latexdiffcite.py:50-81 | every slot of the built-in formats is balanced text |
| RenderFacts.YearTokenExample | tests/test_latexdiffcite.py:62 | three papers of one author with years `2011a`, `2011b` and `2012` give `2011a, b, 2012` |
| Document.ReplaceCitesSucceeds | src/latexdiffcite/latexdiffcite.py:661-681 | when every command formats, the replacement succeeds |
| Document.ReplaceCitesFails | src/latexdiffcite/latexdiffcite.py:678 | the first command that cannot be formatted gives the error |
| Document.OneCommand | src/latexdiffcite/latexdiffcite.py:681 | a command's text is replaced at every occurrence by its formatted citation |
| Document.OpensIff | src/latexdiffcite/latexdiffcite.py:687 | a line opens with the command if and only if the command occurs in it with no `%` before it |
| Document.MarkLinesCount | src/latexdiffcite/latexdiffcite.py:687 | exactly one line is inserted per line that opens with the command |
| Document.InsertBeforeNothing | src/latexdiffcite/latexdiffcite.py:687 | a text without such a line is unchanged |
| Document.InsertBeforeRoundTrip | src/latexdiffcite/latexdiffcite.py:686-687 | dropping the inserted lines gives the text back |
| Document.NociteText | src/latexdiffcite/latexdiffcite.py:684 | the line starts with `\nocite{` and ends with `}` |
| Document.NociteKeys | src/latexdiffcite/latexdiffcite.py:684 | the `\nocite` line lists the keys joined by commas: for comma-free keys, the text between `\nocite{` and `}` split on `,` gives back the key list; no keys give `\nocite{}` |
| Document.RewriteTexErrors | src/latexdiffcite/latexdiffcite.py:650-695 | the rewrite fails if and only if some command cannot be formatted, with the first such command's error |
| Document.RewriteTexRoundTrip | src/latexdiffcite/latexdiffcite.py:684-693 | removing the declaration line and the `\nocite` line leaves the text with its commands replaced |
| Document.ReplaceRefsInTex | src/latexdiffcite/latexdiffcite.py:650-695 | the replacement loop and the insertions compute the rewritten text |
| Strings.ParseNatToString | src/latexdiffcite/latexdiffcite.py:743 | the decimal text of a number reads back as that number |
| Strings.NatToStringInjective | src/latexdiffcite/latexdiffcite.py:743 | different numbers get different `%NUMERIC%` texts |
| Revision.BuildTables | src/latexdiffcite/latexdiffcite.py:345-364 | the tables: the keys, then the bbl stage when there is a bbl text and the bib stage otherwise |
| Revision.ProcessRevision | src/latexdiffcite/latexdiffcite.py:340-368 | the tables, then the rewritten text, failing with the first stage's error |
| Revision.ProcessBoth | src/latexdiffcite/latexdiffcite.py:295-297 | the old revision, then the new one; succeeds if and only if both do; fails with the old revision's error if it fails, otherwise with the new one's |
| Revision.TablesKnowEveryKey | src/latexdiffcite/latexdiffcite.py:347-364 | built tables give every collected key a place, capture groups and a pair |
| Revision.CollectedKeysRender | src/latexdiffcite/latexdiffcite.py:383-678 | when the replacement scan finds the commands the key scan found, no formatted command meets an unknown key |
| Revision.BibModeHasNoGroups | src/latexdiffcite/latexdiffcite.py:355-357 | without a bbl text every key's capture groups are empty |
| Revision.BblModePairs | src/latexdiffcite/latexdiffcite.py:350-354 | with a bbl text each pair is the two bbl templates filled with the key's groups |
| Revision.RepeatedKeyDoubleLetter | src/latexdiffcite/latexdiffcite.py:389-391 | as written, `\cite{a, a}` makes the only 2011 paper `2011ab` |
| Revision.RepeatedKeySingleYear | src/latexdiffcite/latexdiffcite.py:376 | with the distinct keys the same citation keeps the year `2011` |

## Left out

- Regex engine: the regex searches are inputs to the model, not computed.
  This covers the citation scans, the bbl regex, the bib entry, author and
  year regexes, and `find_bibliography_arg`. Lazy and greedy `DOTALL`
  matching is not modelled.
- Revision.Sources: the key collection and the replacement use two separate
  input scans, as the source does. The model does not relate them when the
  configured command names differ from `cite`, `citet` and `citep`.
  `Revision.CollectedKeysRender` assumes that the second scan finds commands
  whose arguments the first scan saw.
- Revision.Sources: the source runs both scans on `RemoveComments(tex)`. In the
  model `citeArgs` and `cites` are free inputs, and no predicate ties them to
  the comment-free text. A scan that reads inside a comment is not excluded.
- Document.Matched: a matched command text is assumed non-empty, which every
  text the citation regex can match is.
- Strings.IsSpace: whitespace is six of the ten ASCII characters that `\s` and
  `str.strip` treat as whitespace: space, tab, `\n`, `\r`, `\x0b`, `\x0c`. The
  separators `\x1c`-`\x1f` are left out. This
  drives `RefKeys.TrimPiece`, the author split of `AuthorSplit`, `Strip` in
  `BibTokens.CleanSurname` and the `\s*` of `Document.InsertBefore`. Unicode
  whitespace, which both also treat as whitespace, is left out too.
- Document.InsertBefore: the `^[^%\n]*?\\end\s*{document}` search is modelled
  line by line. A `\s*` spanning a line break is left out.
- Document.NociteText: `re.sub` template escapes in the `\nocite` replacement
  are left out. A key holding a backslash would be written differently.
- Keys holding regex metacharacters, which the entry regex and the bbl regex
  splice in unescaped, are left out.
- Render.FormatRefs: when several cited keys are unknown, the error names the
  first one. The source's `KeyError` can name the next key, because the merge
  test reads the next reference's pair before the current one's.
- Render.FormatRefs: `pop(0)` empties the caller's key list. The model works
  on a local copy, since no caller reads the list afterwards.
- Document.ReplaceRefsInTex: the notes-dropped flag of `FormatRefs` stands in
  for the warning that `\citet` ignores its notes. The rewrite itself ignores
  the flag, as the source only logs it.
- Revision.Tables: the tables, and so `BuildTables`, `ProcessRevision` and
  `ProcessBoth`, use the corrected key list of the finding below, not the
  as-written one. For the arguments `a, a` and `b` this changes three visible
  things: the source writes `\nocite{a,a,b}` where the model writes
  `\nocite{a,b}`; `%NUMERIC%` for `b` is 3 in the source (`list.index` on
  `[a, a, b]`) and 2 here; and a 2011 paper of `a` is `2011ab` in the source
  and `2011` here.
- BuildTables: uses the corrected key list, as the `Revision.Tables` line says.
- ProcessRevision: uses the corrected key list, as the `Revision.Tables` line
  says, with its `\nocite`, `%NUMERIC%` and year differences.
- ProcessBoth: uses the corrected key list, as the `Revision.Tables` line says.
- FormatAuthorListJoin: states the corrected join, in which separators are
  written out. As written, `str.format` reads braces in the separators as
  fields; see the second finding below.
- UniformAuthorList: states the corrected join, as the
  `FormatAuthorListJoin` line says.
- BibTokens.AuthorName: writes the author list with the corrected
  `FormatAuthorList`. A separator holding a brace is written out. The source
  instead raises `KeyError`, `IndexError` or `ValueError` from `str.format`,
  or uses up a surname for a `{}` field.
- BibTokens.EntryTokens: fails only for a missing author or year field. The
  `str.format` failures of the as-written author list are lost, since the
  author text comes from `AuthorName`.
- BibTokens.BibEntryTokens: the same, for the entry found in one bib file.
- BibTokens.AuthorYearFromBib: never fails on a braced separator, where the
  source does. The same holds for `ResolveKey`, `ResolveInBibs` and
  `BibAuthYear`, and for the bib stage of `Revision.BuildTables`.
- StrFormat.FormatFrom: models `str.format` with positional arguments only.
  Conversions, format specs, attribute and index access, and nested fields
  are the single failure `UnmodelledField`. Field numbers are ASCII digits
  only.
- BibTokens.FormatAuthorList: requires at least one surname, where the source
  would raise `IndexError`. The author split always yields at least one
  author.
- Duplicates.AppendLetters: the `IndexError` past the 26th letter is the
  `TooManyDuplicates` failure.
- Document.RewriteTexRoundTrip: holds when the inserted lines do not
  themselves open with the command they are inserted before, and the
  `\nocite` line holds no line break.
- I/O, the command line and logging are not modelled. This covers `main`,
  `create_parser` and `initiate_from_args`, and git and latexdiff calls.
  It also covers temporary files, file reads and encodings,
  `Config.load_config`, `read_bibfile` and the existence checks of
  `find_bibfiles`.

## Findings

| source | as written | input that shows it | evidently intended | confidence | as-written member | corrected member |
|---|---|---|---|---|---|---|
| src/latexdiffcite/latexdiffcite.py:375-393 | the new-key filter runs against the list before the current command's `extend`, so a key repeated in one argument is added twice | `\cite{a, a}` yields `['a', 'a']`, and the lone 2011 paper of `a` is then written `2011ab` | the docstring's list of unique keys: each cited key once, in order of first citation | not executed | RefKeys.CollectRefKeys, RefKeys.RepeatedKeyKeptTwice, Revision.RepeatedKeyDoubleLetter | RefKeys.CollectUniqueRefKeys, Revision.RepeatedKeySingleYear |
| src/latexdiffcite/latexdiffcite.py:604-611 | the separators are spliced into the template before `.format(*surnames)`, so braces in them are format syntax | `sep_authors_last = ' {and} '` with the surnames `Foo`, `Bar` raises `KeyError('and')`; `' {} '` uses up a surname, and `{{` prints `{` | the surnames joined by the separators as written | not executed | BibTokens.FormatAuthorListAsWritten, BibTokens.BracedSeparatorFails, BibTokens.BracedAndFails | BibTokens.FormatAuthorList, BibTokens.FormatAuthorListJoin, BibTokens.AsWrittenAgreesBraceFree |

The rest of the model uses the corrected versions: `Revision.Tables` and everything after it use the corrected key list, and the bib stage writes author lists with `FormatAuthorList`. The two agree with the source whenever no argument repeats a key (`RefKeys.AsWrittenAgreesWithoutRepeats`) and no separator holds a brace (`BibTokens.AsWrittenAgreesBraceFree`).
