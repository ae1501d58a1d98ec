# Redaction pipeline: model and proofs

The service takes a PDF, detects personal data on its pages, has people approve or reject every
finding, burns the approved findings into page rasters, checks that nothing approved can still be
read from the result, and serves it with a manifest drawn from a hash-chained audit log. This
project models that path and proves what the service relies on: what was detected is neither lost
nor invented, everything was reviewed, and the exported file is the burn-in of exactly what was
approved.

## How it is laid out

- `TextLayer`, `DisjointSets`, `Components`, `Dedupe`, `DedupeTheorems`, `Tier2`: the word index and
  the merging of the two detection tiers. The disjoint-set class and the grouping loops are
  imperative and proved against a definition by reachability, about which the theorems are stated.
- `Luhn`, `Tier1Detection`: the checksum and the account-number scan.
- `Json`, `AuditChain`, `ChainAppend`: the canonical text that is hashed, the chain, and concurrent
  appenders.
- `BurnIn`, `Whitespace`, `Normalization`, `VerifyGate`: painting a pixel array in place, text
  normalization, and the gate.
- `ReviewStore`, `Manifest`: spans, dispositions and the batch of verbs; the export manifest.
- `Pipeline`: one job as a transition system. Each action is one request, one task delivery or one
  late failure step; each transaction is atomic; deliveries may repeat in any order.
- `JobService`: the same service as code that changes rows inside a session, commits or rolls back,
  and is shown to take the steps of `Pipeline`.
- `PipelineTheorems`, `RunTheorems`, `StorageTheorems`, `ManifestTheorems`, `ProgressTheorems`,
  `ReviewTheorems`, `CoverageTheorems`, `StepTheorems`: what holds over every run, what a manifest
  proves by itself, that the guards leave a way through, what a first edit leaves in the log, how a
  detected box ends up black, and what each step does case by case.

## Reading the model

- The hash is any function from text to 64 hexadecimal digits; nothing is assumed of it. Tamper
  evidence is a reduction: the proof hands over a collision or a preimage of the genesis value.
- Rasterizing, rebuilding, reading a document back, OCR, fuzzy scores and text normalization are
  functions in a parameter (`Env`, `Renderer`, `Gate`), so every theorem holds for all of them.
- Ids, timestamps, fresh keys, detector candidates and faults arrive with each action.
- Coordinates are reals, with rounding to nearest and ties to even. The drawing call follows Pillow
  12, which refuses a rectangle whose second corner lies before its first.
- The object store is not undone by a rollback. A failed delivery leaves its failure step pending,
  and that step may run at any later time or never.
- `{:induction false}` marks lemmas whose body is the induction. It also stands on two lemmas over
  logs that do not recurse (`SplitStep`, `SplitOfExported`), where the hypothesis Dafny would add by
  itself contradicts the rest.

In one place code and commentary differ, and the code is followed: the comment at
`redact_api/services/jobs_service.py:276-279` says an edit's former text survives through its
digest, which holds only if the span had an entry before (`ReviewStore.EditKeepsOldDigestIff` gives
the exact condition, `ReviewTheorems.FirstEditLosesOldDigest` a run on which it fails).
Deduplication is not idempotent in general either; `DedupeTheorems.IdempotentIffUnchained` says when
it is.

## Model

| member | source | states |
|---|---|---|
| `TextLayer.BuildTextAndWords` | redact_api/ingest/pdf.py:144-171 | The loop yields a text and one word per raw word with text[start:end] equal to the raw word, words in order with exactly one separator between neighbours (blank on one line, newline across lines), none after the last. |
| `TextLayer.LayerReads` | redact_api/ingest/pdf.py:144-171 | Each raw word is spelled at its offsets with its box, from the first character to the last; one blank stands before a word of the same block and line, one newline before any other. |
| `TextLayer.LayerIsDetermined` | redact_api/ingest/pdf.py:144-171 | Those conditions leave no freedom: any two text layers of the same raw words are equal. |
| `TextLayer.ResolveCoversRange` | redact_api/detection/base.py:15-24 | Over a built layer the boxes resolved for any range are those of one contiguous run of words, and every character of the range lies in that run unless it is a separator. |
| `TextLayer.ResolvesSharedWords` | redact_api/detection/base.py:15-24 | For words and ranges that are not empty, the boxes of a range are exactly those of the words with a character in it. |
| `DisjointSets.UnionFind.constructor` | redact_api/detection/tier2.py:210-211 | Every element starts as its own representative. |
| `DisjointSets.ClimbReachesRoot` | redact_api/detection/tier2.py:213-217 | Following parent links from any element arrives at its representative and stays there. |
| `DisjointSets.UnionFind.Find` | redact_api/detection/tier2.py:213-217 | Returns where the parent links led from the element, and although path halving rewrites links, from every element they still lead where they did. |
| `DisjointSets.UnionFind.Union` | redact_api/detection/tier2.py:219-222 | Afterwards exactly the class of the second element has the first one's representative; every other class is as it was. |
| `Components.MergedRepresents` | redact_api/detection/tier2.py:219-222 | If equal representatives mean joined by a path of edges, they still do after merging the two ends of one more edge. |
| `Tier2.UniteRow` | redact_api/detection/tier2.py:242-244 | One pass of the inner loop adds exactly the edges of one Tier-1 span. |
| `Tier2.UniteOverlapping` | redact_api/detection/tier2.py:239-244 | After the nested loop two spans share a representative exactly when a path of overlap edges joins them. |
| `Tier2.GroupOverlappingSpans` | redact_api/detection/tier2.py:225-256 | The two group maps are exactly the connected components holding a Tier-1 span, each once, members in input order; a Tier-2 span is grouped exactly when some path joins it to a Tier-1 span. |
| `Tier2.SortedByEarliestMember` | redact_api/detection/tier2.py:281 | The component keys are listed each once, in strictly increasing order of their earliest Tier-1 member. |
| `Tier2.FoldGroups` | redact_api/detection/tier2.py:282-289 | Folding the groups in key order gives the listed survivors in that order. |
| `Tier2.Unconsumed` | redact_api/detection/tier2.py:279-290 | Appends exactly the Tier-2 spans in no group, in input order. |
| `Tier2.DedupeTier2AgainstTier1` | redact_api/detection/tier2.py:259-291 | The imperative code returns the list defined by reachability alone: one folded span per component with a Tier-1 member, in order of its first one, then the unreached Tier-2 spans in input order. |
| `Dedupe.OverlapIffShared` | redact_api/detection/tier2.py:155-168 | Nonempty ranges overlap exactly when they share a character, on one page and in one category. |
| `Dedupe.SliceInRange` | redact_api/detection/tier2.py:202 | Between bounds in range, a slice is the page text from start to end. |
| `Dedupe.SliceOutOfRange` | redact_api/detection/tier2.py:202 | A negative bound counts from the end but stops at the beginning, one past the end stands for the end, and bounds in the wrong order give nothing. |
| `DedupeTheorems.ComponentIsUniform` | redact_api/detection/tier2.py:155-168 | All spans of a component share one page and one category. |
| `DedupeTheorems.HullMeetsIffMemberMeets` | redact_api/detection/tier2.py:191-194 | The hull of an overlap-connected component meets a range exactly when some member does: there are no gaps. |
| `DedupeTheorems.SurvivorIsHull` | redact_api/detection/tier2.py:171-204 | The survivor's range is least start to greatest end and its provenance that of the earliest Tier-1 member, which it is unchanged if that range is its own; otherwise its text is the page's text from start to end and its boxes those of that range. |
| `DedupeTheorems.SurvivorIsUnion` | redact_api/detection/tier2.py:171-204 | A character is in the survivor exactly when it is in some span folded into it, and all of those share its page and category. |
| `DedupeTheorems.SurvivorBoxes` | redact_api/detection/tier2.py:197-204 | The survivor's boxes are exactly the words touched by some folded span, in document order. |
| `DedupeTheorems.CoverageConserved` | redact_api/detection/tier2.py:259-291 | A character of a page is claimed for a category by some input span exactly when it is by some output span. |
| `DedupeTheorems.BoxesConserved` | redact_api/detection/tier2.py:171-204 | For candidates whose boxes are those of their range, a box is claimed for a page and category by some input span exactly when it is by some output span. |
| `DedupeTheorems.OutputIsTidyIffJoined` | redact_api/detection/tier2.py:278-291 | For ranges that do not run backwards, no two output spans of a page and category overlap exactly when any two input spans that overlap are joined by a path of overlaps between the tiers; tidy tiers are such. |
| `DedupeTheorems.UnchangedIffApart` | redact_api/detection/tier2.py:259-291 | Deduplication returns its input exactly when no Tier-1 span overlaps a Tier-2 span. |
| `DedupeTheorems.IdempotentIffApart` | redact_api/detection/tier2.py:259-291 | Deduplicating survivors against leftovers changes nothing exactly when no survivor overlaps a leftover. |
| `DedupeTheorems.IdempotentIffUnchained` | redact_api/detection/tier2.py:259-291 | Told from the input, for Tier-2 ranges that do not run backwards: a second pass changes nothing exactly when no Tier-2 span joined to Tier 1 overlaps one that is not. |
| `DedupeTheorems.DedupeIsIdempotent` | redact_api/detection/tier2.py:259-291 | From tidy tiers a second pass always gives the same list in the same order. |
| `DedupeTheorems.IdempotenceNeedsTidyTiers` | redact_api/detection/tier2.py:259-291 | The witness [0,4) against [3,8) and [7,12): without tidy tiers a second pass changes the result. |
| `Luhn.LuhnCheck` | redact_api/detection/tier1.py:96-107 | The left-to-right parity loop accepts exactly the strings whose right-to-left double-every-second-digit sum is a multiple of ten. |
| `Luhn.WorkedExample` | redact_api/detection/tier1.py:96-107 | The number 7992739871 takes the check digit 3 and no other. |
| `Luhn.SingleDigitErrorDetected` | redact_api/detection/tier1.py:96-107 | Changing one digit of an accepted string of any length makes it rejected, unless the digit is the same. |
| `Luhn.AdjacentSwapDetected` | redact_api/detection/tier1.py:96-107 | Swapping neighbours of an accepted string goes unnoticed exactly for equal digits and the pair 0 and 9. |
| `Luhn.CheckDigitExistsOnce` | redact_api/detection/tier1.py:96-107 | Every digit string has exactly one check digit that completes it. |
| `Tier1Detection.FindAllIsComplete` | redact_api/detection/tier1.py:160 | The left-to-right scan finds every match of the text once, in order, without overlap, and nothing else. |
| `Tier1Detection.DetectAccountNumber` | redact_api/detection/tier1.py:188-196 | The loop over matches reports the valid account numbers of the page and nothing else. |
| `Tier1Detection.AccountNumbersAreExact` | redact_api/detection/tier1.py:119-142 | A range is reported exactly when it is 12 to 19 digits with no digit next to it whose values, as they stand in the text, pass the checksum; with the text, boxes, page, category, tier and confidence of that range, and no two overlap. |
| `Json.UnescapeRoundTrip` | redact_api/services/redaction_job_service.py:87 | The ASCII-only string escape, surrogate pairs included, is undone by its decoder for every string. |
| `Json.ConstantsText` | redact_api/services/redaction_job_service.py:85-88 | null, true, false and empty lists and objects are written so. |
| `Json.FirstItemText` | redact_api/services/redaction_job_service.py:85-88 | List items are written one after the other with a comma and no blank between. |
| `Json.ShortEscapesText` | redact_api/services/redaction_job_service.py:85-88 | Quotes, backslashes and the named control characters are written as their two-character escapes. |
| `Json.UnicodeEscapesText` | redact_api/services/redaction_job_service.py:85-88 | Any other character outside printable ASCII is written as four lower-case hexadecimal digits per UTF-16 code unit. |
| `Json.DecodeRoundTrip` | redact_api/services/redaction_job_service.py:85-88 | Decoding the compact JSON text of any value gives the value back and leaves the rest of the input. |
| `AuditChain.UuidTextIsInjective` | redact_api/services/redaction_job_service.py:117-121 | The dashed text of an id determines the id. |
| `AuditChain.UuidTextForm` | redact_api/services/redaction_job_service.py:103-124 | An id is written as its 32 lower-case hexadecimal digits with dashes after the 8th, 12th, 16th and 20th. |
| `AuditChain.ActionWords` | redact_api/models/audit_entry.py:23-39 | The eight words in which actions are stored and hashed. |
| `AuditChain.PreimageText` | redact_api/services/redaction_job_service.py:85-124 | What is hashed is the previous hash and then exactly the six fields as compact JSON under sorted keys. |
| `AuditChain.PreimageIsInjective` | redact_api/services/redaction_job_service.py:85-88 | The hashed text determines the previous hash and all six payload fields. |
| `AuditChain.VerifyAuditChain` | redact_api/services/redaction_job_service.py:252-277 | Reports intact exactly when every entry links to the one before, names the first entry that does not, and gives the head and the count of all entries. |
| `AuditChain.HeadBindsPayloads` | redact_api/services/redaction_job_service.py:252-277 | Two intact chains with one head have the same payloads in the same order and number, or comparing them yields two texts with one digest or a text hashing to the genesis value. |
| `AuditChain.UnhashedFieldsAreFree` | redact_api/services/redaction_job_service.py:108-123 | Row ids, text digests, organizations and sequence numbers are outside the hash: changing them alters neither verification nor head. |
| `AuditChain.AppendKeepsGoodLog` | redact_api/services/redaction_job_service.py:167-228 | Appending keeps the chain intact and the sequence numbers 1, 2, 3, ... |
| `AuditChain.AppendedEntry` | redact_api/services/redaction_job_service.py:167-228 | Appending to a log in good order adds one entry with the event's fields, the digest of its normalized text if it has one, the next number, and a hash that links it to the old head. |
| `ChainAppend.EveryRunIsLinear` | redact_api/services/redaction_job_service.py:167-228 | For any interleaving of read link, insert, commit and abort by any number of transactions, the committed chain verifies and is numbered exactly 1 to n. |
| `ChainAppend.CommittedNeverRewritten` | redact_api/services/redaction_job_service.py:167-228 | What was committed at any moment of such a run stays a prefix of the log. |
| `ChainAppend.InsertOutcomes` | redact_api/services/redaction_job_service.py:167-228 | An insert is refused exactly when the log its transaction sees has grown since it read its link, waits exactly while another transaction holds rows, and otherwise adds one row that records the event after that log. |
| `ChainAppend.OtherSteps` | redact_api/services/redaction_job_service.py:167-176 | Reading gives the head and next number of what a transaction sees, a commit moves exactly its rows to the end of the log, an abort leaves none of them. |
| `ChainAppend.UnobstructedAppendCommits` | redact_api/services/redaction_job_service.py:167-228 | In every state reached, a transaction that reads, inserts and commits while no other holds rows makes the log longer by exactly one entry, which records its event. |
| `ChainAppend.WithoutTheConstraintTheChainForks` | redact_api/models/audit_entry.py:97 | Without the unique constraint on job and sequence, two appenders that read the same link fork the chain. |
| `ReviewStore.BatchKeepsGoodStore` | redact_api/services/jobs_service.py:199-354 | A batch that succeeds keeps the chain good, every span on a known page, and the log an exact record of the disposition table with the digest of each span's present text. |
| `ReviewStore.ItemEffect` | redact_api/services/jobs_service.py:243-303 | An item of a known span writes nothing exactly when decision, text and any boxes already are as asked; otherwise an edit sets the text, and the boxes only if it gives some, other items leave the span, the decision and verb are the item's, one entry records it, and no other row changes. |
| `ReviewStore.ManualEffect` | redact_api/services/jobs_service.py:320-354 | A manual item adds exactly the span it describes, of the manual tier without confidence, approved by its reviewer and recorded by one entry. |
| `ReviewStore.BatchInParts` | redact_api/services/jobs_service.py:199-225 | A batch is its parts one after the other: it fails where the first of them fails, and its counts are the sums. |
| `ReviewStore.BatchOfOne` | redact_api/services/jobs_service.py:199-225 | A batch of one item has that item's effect and counts it as applied, skipped or created. |
| `ReviewStore.EditKeepsOldDigestIff` | redact_api/services/jobs_service.py:272-303 | After an edit the digest of the overwritten text is in the log exactly when the span had been disposed of before or the digests coincide. |
| `ReviewTheorems.FirstEditKeepsDigestIff` | redact_api/services/jobs_service.py:272-303 | After upload, ingest, detection and one edit of a detected span, the digest of the detected text is in the log exactly when the new text has the same digest. |
| `ReviewTheorems.FirstEditLosesOldDigest` | redact_api/services/jobs_service.py:276-279 | The comment's claim fails on a run: the one word of a page, laid out and resolved as extraction and detection do it, is detected; its first reviewer edits it, and no digest of the detected text is left. |
| `ReviewStore.BatchCounts` | redact_api/services/jobs_service.py:199-225 | Applied plus skipped is the item count, the log grows at its end by exactly applied, the spans by the manual items, and a batch that applies nothing changes nothing. |
| `ReviewStore.BatchFailsIffRefused` | redact_api/services/jobs_service.py:228-240 | A batch fails exactly when some item names a span neither on the document nor added earlier in the batch (or adds one under a used id); otherwise the spans are the old ones and the added ones. |
| `ReviewStore.NoOpIffSettled` | redact_api/services/jobs_service.py:145-167 | A batch changes nothing exactly when it has no manual item and each item already matches its span's disposition, text and boxes. |
| `ReviewStore.ResubmissionIsNoOpIffHarmonious` | redact_api/services/jobs_service.py:199-225 | Resubmitting the items of a batch, whoever does it, skips every one exactly when the batch has no manual item and any two items of one span ask for the same disposition, the same text and the same boxes. |
| `BurnIn.DrawRectangle` | redact_api/redaction/apply.py:67 | Paints in place exactly the pixels between the two corners, corners included, and refuses a rectangle whose second corner lies before its first. |
| `BurnIn.DrawBoxes` | redact_api/redaction/apply.py:58-67 | After the nested loops a pixel is black if some padded, scaled, rounded, clamped box covers it and otherwise unchanged; fails exactly when some box is refused. |
| `BurnIn.PaddingCoversInk` | redact_api/redaction/consts.py:29-35 | Two points of padding at 300 dpi exceed the rounding error: every pixel that meets the unpadded box is covered. |
| `BurnIn.PaintIsThePadding` | redact_api/redaction/apply.py:60-67 | At 300 dots per inch a box paints every pixel within it and two points around it, and none more than half a pixel further out. |
| `BurnIn.RefusedIffOffOrReversed` | redact_api/redaction/apply.py:63-67 | Whatever its corners, a box is refused exactly when, padded, scaled and rounded, it starts past the far edge, ends before the near one, or ends before it starts; with corners in order only the first two can happen. |
| `BurnIn.ValidatePageNumbers` | redact_api/redaction/apply.py:42-47 | Accepts exactly the requests in which every span's page exists. |
| `BurnIn.SpansByPage` | redact_api/redaction/apply.py:50-55 | Each group is the spans of its page in order, and a page has a group exactly when it has spans. |
| `BurnIn.EverySpanLandsOnce` | redact_api/redaction/apply.py:112-119 | Counted page by page over an accepted request, every span lands on exactly one page. |
| `BurnIn.RedactPageImage` | redact_api/redaction/apply.py:70-75 | Gives a page's raster with its spans' boxes painted, sized as before, or raises exactly when some box is refused. |
| `BurnIn.RedactPages` | redact_api/redaction/apply.py:116-118 | The page loop burns into each page exactly its own spans. |
| `BurnIn.Burn` | redact_api/redaction/apply.py:126-139 | Produces the rebuilt document of the burned pages or raises, as specified page by page. |
| `BurnIn.BurnRaises` | redact_api/redaction/apply.py:45-67 | Burn-in raises exactly for an unreadable document, a span on a page it does not have, or a box the drawing call refuses on its page, in that order. |
| `BurnIn.BurnedPixel` | redact_api/redaction/apply.py:58-75 | A pixel of the output page is black if it lies in a box of an approved span of that page and is otherwise the source pixel; sizes do not change. |
| `BurnIn.InkIsGone` | redact_api/redaction/apply.py:58-75 | No pixel that meets an approved span's own box survives. |
| `BurnIn.OutsidePaddingIsKept` | redact_api/redaction/apply.py:58-75 | A pixel more than half a pixel outside the padding of every box approved on its page keeps its colour. |
| `BurnIn.BurnIgnoresOrder` | redact_api/redaction/apply.py:112-123 | The burned pages depend on which spans are approved, not on order or repetition. |
| `Whitespace.NormalizingKeepsLeaks` | redact_api/redaction/verify_gate.py:58-59 | If the page contains the redacted string, the space-normalized page contains the space-normalized string. |
| `Whitespace.ReflowedLeakIsFound` | redact_api/redaction/verify_gate.py:58-59 | A leak whose blanks were reflowed into other runs of whitespace is still found after normalization. |
| `Whitespace.FoundIffShown` | redact_api/redaction/verify_gate.py:58-59 | One space-normalized text contains another exactly when some part of the first text is the second up to whitespace: nothing is missed and nothing is found that is not there. |
| `Whitespace.NormalForms` | redact_api/redaction/verify_gate.py:58-59 | Exactly the strings with no whitespace at either end and only single blanks inside are their own normal form, every result is one, and normalizing twice changes nothing more. |
| `Whitespace.NormalFormJoinsWords` | redact_api/redaction/verify_gate.py:58-59 | The normal form is the words of the text, its maximal runs without whitespace, joined by single blanks. |
| `Normalization.OccurrenceShows` | redact_api/redaction/verify_gate.py:48-59 | A string that occurs without being composed with its surroundings is found after composition, case folding and the whitespace phase. |
| `Normalization.AccentHidesLetter` | redact_api/redaction/verify_gate.py:56-59 | The proviso is needed: a letter followed by a combining accent occurs in the text and is not found after normalization. |
| `VerifyGate.NormalizedTargets` | redact_api/redaction/verify_gate.py:67-78 | Pairs each string with its normal form, in order, leaving out those whose normal form is empty. |
| `VerifyGate.TargetsAre` | redact_api/redaction/verify_gate.py:67-78 | A pair is a target exactly when its string was redacted and the other part is its nonempty normal form. |
| `VerifyGate.TargetsInOrder` | redact_api/redaction/verify_gate.py:67-78 | Targets come in the order of the strings and as often. |
| `VerifyGate.TextFindingsAre` | redact_api/redaction/verify_gate.py:90-109 | A finding is reported exactly for each target contained in a page's normalized text, with its digest, the page number, and where a search finds the string itself. |
| `VerifyGate.OcrFindingsAre` | redact_api/redaction/verify_gate.py:112-144 | A finding is reported exactly for each target that scores at least 85 on a page, with its digest, the page number and the score. |
| `VerifyGate.MetadataFindingsAre` | redact_api/redaction/verify_gate.py:147-164 | A finding is reported exactly for each target contained in the normalized metadata, with its digest and page 0. |
| `VerifyGate.FindingsInOrder` | redact_api/redaction/verify_gate.py:90-109 | Within one text, findings come in the order of the targets and as often. |
| `VerifyGate.FindingsByPage` | redact_api/redaction/verify_gate.py:90-109 | Text layer findings come page by page. |
| `VerifyGate.CheckTextLayer` | redact_api/redaction/verify_gate.py:90-109 | The page and target loops list one finding per target contained in a page's normalized text, with the place where a search for the raw string finds it, and pass exactly when there is none. |
| `VerifyGate.CheckOcr` | redact_api/redaction/verify_gate.py:112-144 | As above by fuzzy score, which the finding carries; with no target no page is read, and a failing OCR engine raises rather than passes. |
| `VerifyGate.Verify` | redact_api/redaction/verify_gate.py:167-186 | Runs all three checks and aggregates them as specified, raising if the document or a page cannot be read. |
| `VerifyGate.VerdictIsEveryCheck` | redact_api/redaction/verify_gate.py:167-187 | Each of the three checks is reported, with its page count, as passed exactly when no target is found in what it looks at; the verdict passes exactly when all three do, and exactly when there is no finding. |
| `VerifyGate.Apply` | redact_api/redaction/apply.py:126-139 | Burns, then gates the burned bytes against the distinct approved texts; raises when either does. |
| `VerifyGate.VerdictMeaning` | redact_api/redaction/verify_gate.py:167-186 | The verdict is PASS exactly when the document can be read and no nonempty normal form of a redacted string is contained in any page text or the metadata, or scored at the threshold by OCR of any page. |
| `VerifyGate.VerdictIgnoresOrder` | redact_api/redaction/apply.py:137-138 | The verdict and the three outcomes depend on the set of redacted strings only. |
| `VerifyGate.TextCheckIsExact` | redact_api/redaction/verify_gate.py:90-109 | With the service's normalization, the text layer check is clean exactly when no page, composed and case-folded, has a redacted string up to whitespace, strings of whitespace aside. |
| `VerifyGate.LeakNeverPasses` | redact_api/redaction/verify_gate.py:48-109 | Output some page of which has a redacted string in that sense never passes. |
| `VerifyGate.PassedOutput` | redact_api/redaction/apply.py:126-139 | Output that passes is the rebuild of the burned pages, and no approved text is recoverable from it. |
| `Manifest.VerdictCategoryIsFaithful` | redact_api/tasks/apply_job.py:38-51 | The text in the audit row decodes to the verdict summary, and two summaries have one text exactly when verdict and checks agree. |
| `Manifest.VerdictCategoryTells` | redact_api/tasks/apply_job.py:38-51 | The text in the audit row reads as an object of the checks, by the names text_layer, ocr and metadata with their outcomes and page counts, and the verdict, pass or fail as the gate decided. |
| `Manifest.SplitEntries` | redact_api/services/export_manifest_service.py:85-113 | The loop computes the split, or raises, as specified. |
| `Manifest.SplitIsAStablePartition` | redact_api/services/export_manifest_service.py:85-107 | Span-level entries go to the dispositions and the others to the lifecycle events, each in order, together every entry once. |
| `Manifest.SummaryIsLastVerdict` | redact_api/services/export_manifest_service.py:108-113 | The summary is the decoded text of the last verify entry. |
| `Manifest.SplitRaisesIff` | redact_api/services/export_manifest_service.py:112-113 | Splitting raises exactly when some verify entry's text is not JSON in the compact form that verdicts are written in. |
| `JobService.JobBackend.constructor` | redact_api/api/jobs.py:119-145 | A new job is UPLOADED, has no rows, and its original is stored. |
| `JobService.JobBackend.CountUndispositionedSpans` | redact_api/services/redaction_job_service.py:126-137 | The number of spans without a disposition. |
| `JobService.JobBackend.TransitionJobStatus` | redact_api/services/redaction_job_service.py:140-164 | Moves the status along an allowed edge; refuses any other, and refuses APPLYING while a span lacks a disposition, changing nothing. |
| `JobService.JobBackend.AppendAuditEntry` | redact_api/services/redaction_job_service.py:179-228 | Appends the chained entry with the digest of the normalized text, or refuses a span-level event without text. |
| `JobService.JobBackend.ApplyExistingSpanDisposition` | redact_api/services/jobs_service.py:243-303 | Updates span, disposition and log in place as specified, or skips an identical resubmission, or reports an unknown span. |
| `JobService.JobBackend.AddManualSpan` | redact_api/services/jobs_service.py:320-354 | Creates the page if need be, the span, its approval and its entry together, as specified; a used id is refused. |
| `JobService.JobBackend.ApplyDispositionBatch` | redact_api/services/jobs_service.py:199-225 | The loop over mutable rows has the result and counts of the batch specification, stopping at the first error. |
| `JobService.JobBackend.RunDetection` | redact_api/services/detection_service.py:40-60 | Inserts one row per surviving candidate of every page, in order, and creates exactly the pages that have one. |
| `JobService.JobBackend.IngestJob` | redact_api/tasks/ingest_job.py:34-70 | Guard, staging, one status step; a rejection or error rolls back but leaves what was staged, and a failure step pending. |
| `JobService.JobBackend.DetectJob` | redact_api/tasks/detect_job.py:27-61 | Guard, spans and two status steps committed together, or none of them and a failure step pending. |
| `JobService.JobBackend.RequestApply` | redact_api/api/jobs.py:204-235 | Accepted exactly in review with every span disposed of; otherwise nothing changes. |
| `JobService.JobBackend.CreateDispositions` | redact_api/api/jobs.py:176-201 | All of a batch is committed or none of it; the answer's counts add up to the items and to the log's growth. |
| `JobService.JobBackend.ApplyJob` | redact_api/tasks/apply_job.py:54-150 | Guard, APPLY_STARTED, burn-in, verdict entry, upload before commit; every failure rolls the rows back and leaves a failure step pending. |
| `JobService.JobBackend.FailJobLate` | redact_api/tasks/support.py:43-58 | The later failure step fails the job if its present status allows, in a session of its own. |
| `JobService.JobBackend.AssembleExportManifest` | redact_api/services/export_manifest_service.py:49-127 | Raises on a broken chain, a missing artifact, a missing original or a verdict that is not JSON; otherwise builds the manifest from the log, both files and the chain result it is given. |
| `JobService.JobBackend.ExportJob` | redact_api/api/jobs.py:258-323 | Serves the bundle when every guard passes, appends EXPORTED and moves on only the first time, and keeps no row change on failure. |
| `JobService.JobBackend.Handle` | redact_api/api/jobs.py:176-323 | Each request and delivery moves the committed rows and objects exactly as one step of the transition system. |
| `JobService.Serve` | redact_api/api/jobs.py:135-323 | Over any sequence of actions the service ends in the state the transition system reaches. |
| `PipelineTheorems.StepKeepsInv` | redact_api/tasks/apply_job.py:62-150 | Every step keeps: good log, log shape fixed by status, log an exact record of the table, every span disposed of past review, stored bytes gate-passing past the gate. |
| `StepTheorems.TransitionIff` | redact_api/services/redaction_job_service.py:43-52 | A job moves exactly one place forward, or to FAILED unless it is over, and to APPLYING only with every span disposed of; nothing else of it changes. |
| `StepTheorems.IngestEffect` | redact_api/tasks/ingest_job.py:34-70 | Ingest of an uploaded job stores exactly the artifacts of its pages and moves on; if it went badly the rows stay and a failure step is pending. |
| `StepTheorems.DetectEffect` | redact_api/tasks/detect_job.py:27-61 | Detection of an ingested job writes exactly when it went well and the new ids differ, and creates exactly the pages of its spans; otherwise the rows stay and a failure step is pending. |
| `StepTheorems.DisposeEffect` | redact_api/api/jobs.py:176-201 | A batch is accepted exactly in review, if it is not empty, its manual items name pages from 1 on and no item is refused; otherwise nothing changes. |
| `StepTheorems.ApplyEffect` | redact_api/tasks/apply_job.py:54-150 | A failing verdict is logged and fails the job; a passing one stores the output and, if the commit holds, is logged and verifies the job; whatever raises or does not commit leaves the rows and a pending failure step. |
| `StepTheorems.FailEffect` | redact_api/tasks/support.py:43-58 | A pending failure step fails the job unless it is exported, and is then no longer pending; no object or other row changes. |
| `StepTheorems.ExportEffect` | redact_api/api/jobs.py:258-323 | Past the gate, unless a download or upload fails, the manifest is stored; a verified job moves on and is served if the commit holds, logged once, and an exported one is served again with its rows unchanged. |
| `RunTheorems.ExportSafety` | redact_api/tasks/apply_job.py:118-133 | In every reachable VERIFIED or EXPORTED state the redacted key is set and its object is the rebuild of the original burned with exactly the spans approved now; no approved text's normal form is in its text layers or metadata, nor scores 85 under OCR of any page. |
| `RunTheorems.ApprovedInkIsGone` | redact_api/redaction/apply.py:58-75 | In such a state the object is the rebuild of the burned pages, and in them every pixel meeting a box of an approved span is black. |
| `RunTheorems.ExportedTextIsGone` | redact_api/redaction/verify_gate.py:48-109 | In such a state no page's text layer has an approved text in that sense; so wherever one still occurs, some character of it is composed with its surroundings. |
| `RunTheorems.ApprovedSpansAreSorted` | redact_api/services/jobs_service.py:175-191 | The projection lists exactly the approved spans, each once, by page and then id. |
| `RunTheorems.ReviewGate` | redact_api/services/redaction_job_service.py:126-164 | In every reachable APPLYING, VERIFIED or EXPORTED state exactly the spans on the document have a disposition. |
| `RunTheorems.AuditGrammar` | redact_api/services/redaction_job_service.py:43-52 | In every reachable state the actions read Span* then nothing, or APPLY_STARTED VERIFY_FAILED, or APPLY_STARTED VERIFY_PASSED, or those and EXPORTED; each status allows only its own tails, and DETECTED never occurs. |
| `RunTheorems.LifecycleOnce` | redact_api/api/jobs.py:302-317 | Each job-level action is logged at most once, and EXPORTED exactly in exported jobs. |
| `StepTheorems.VerdictsInLog` | redact_api/tasks/apply_job.py:104-124 | In every reachable log each VERIFY_PASSED entry reads pass and each VERIFY_FAILED entry reads fail. |
| `RunTheorems.LogTellsTheStore` | redact_api/services/jobs_service.py:243-354 | In every reachable state replaying the log gives the disposition table, each decision's latest entry digests the span's present text, and all entries are this job's and its organization's. |
| `RunTheorems.BundleIsFaithful` | redact_api/services/export_manifest_service.py:82-127 | In a reachable state an export is answered exactly for VERIFIED and EXPORTED; the manifest tells each entry of the log in order, digests included, counts them, carries both file hashes and the head, and its summary reads "pass" with the three checks passed over the pages of the served file. |
| `ManifestTheorems.HeadIsRecomputable` | redact_api/services/redaction_job_service.py:252-277 | The head of an intact chain is determined by hashing its payloads in order. |
| `ManifestTheorems.ManifestIsSelfContained` | redact_api/manifest/models.py:58-81 | From the manifest of a reachable job alone every hashed payload can be rebuilt in order and the head recomputed; every disposition in it carries a text digest, and a verdict is listed. |
| `ManifestTheorems.SamePayloadsIffSameTrail` | redact_api/manifest/models.py:58-81 | What is hashed agrees for two manifests exactly when they have the same job-level events, dispositions equal but for text digests, the same verdict if one is listed, and the same job; file digests, document and time of generation are not bound. |
| `ManifestTheorems.ForgedManifestIsExposed` | redact_api/manifest/models.py:58-81 | Any manifest with a genuine one's trail leads to its head; any leading to its head has its trail, field by field, and its verdict, or comparing the two yields a collision or a preimage of the genesis value. |
| `RunTheorems.RunsGoForward` | redact_api/services/redaction_job_service.py:43-52 | However a run goes on, the job never goes back, the log only grows at its end, spans and dispositions never change past review, and the rows of an EXPORTED or FAILED job never change at all. |
| `RunTheorems.DetectionWritesOnce` | redact_api/tasks/detect_job.py:27-46 | However often it is delivered, detection writes at most once in a run. |
| `RunTheorems.DetectionStoresSurvivors` | redact_api/services/detection_service.py:40-78 | A detection that writes stores one row for each candidate that survived deduplication on its page, with its page, boxes, text, category, tier and confidence, and nothing else; none is disposed of. |
| `CoverageTheorems.SpansAreAccounted` | redact_api/services/jobs_service.py:272-303 | However a run goes on, a span keeps its page, category, tier and confidence; its text and its boxes differ only if an edit submitted since gave exactly those, and then an edit of it is in the log. |
| `CoverageTheorems.DetectedInkIsGone` | redact_api/services/detection_service.py:40-78 | From end to end: every pixel meeting a box of any candidate either tier reported is black in the pages behind the exported file, unless the log's latest entry rejects the span it went into, or a logged and submitted edit gave the span boxes without it. |
| `ProgressTheorems.UploadReachesReview` | redact_api/tasks/detect_job.py:27-46 | From upload, one good ingest and one good detection with fresh row ids reach IN_REVIEW. |
| `ProgressTheorems.PassesIffCanPass` | redact_api/redaction/apply.py:126-139 | Burn-in and gate give a passing result exactly when the original rasterizes, the spans' pages exist, no box is refused, and from the rebuilt burned pages no approved text can be recovered. |
| `ProgressTheorems.ApplyVerifiesIffPassed` | redact_api/tasks/apply_job.py:89-133 | Without a fault the delivery ends in VERIFIED exactly under that condition on the document and the spans approved on it. |
| `ProgressTheorems.ReviewReachesExport` | redact_api/api/jobs.py:204-323 | From any reachable review with every span disposed of and that condition on document and spans, one request, one delivery and one export reach EXPORTED. |
| `StorageTheorems.NoUngatedOutput` | redact_api/tasks/apply_job.py:91-130 | In every reachable state, failed jobs included, whatever lies under the redacted key passed the gate and was made from the spans approved now. |
| `StorageTheorems.KeysIsolate` | redact_api/storage/keys.py:16-39 | Output and manifest keys are equal for one job only, originals for one document, page artifacts for one document, page and kind. |
| `StorageTheorems.ExportedBytesAreStable` | redact_api/tasks/apply_job.py:62-66 | Once a job is past the gate the object under its redacted key is there and is never written again, whatever is delivered or requested later and even if the job fails. |
| `StorageTheorems.ApprovedIsWhatTheLogSays` | redact_api/services/jobs_service.py:115-127 | In every reachable state the spans to burn in are those whose latest log entry is not a rejection. |

## Left out

- Manifest.SplitRaisesIff: the decoder reads what the encoder writes; a general JSON parser also takes blanks, signs and fractions, which no verdict contains.
- VerifyGate.VerdictIgnoresOrder: stands in for sorting the redacted strings, which decides only the order of findings.
- BurnIn.Burn: encoding the rasters and stripping metadata, scripts and embedded files happen inside the abstract rebuild function, which is taken to be deterministic; page rotation and floating-point error in coordinates are not modelled.
- Unicode's tables: in `Normalization` composition is any function of the text and case folding any function of a character.
- JobService.JobBackend.RunDetection: the candidates of both tiers are arbitrary input lists; Presidio, spaCy and the detectors other than account numbers are not modelled.
- JobService.JobBackend.ApplyJob: stored boxes are well formed by type, so the projection's validation error appears only as one more way for burn-in to raise; a commit that takes effect although it is reported failed is not modelled.
- JobService.Serve: serial orders of transactions only, as the code takes no row locks; interleaving inside transactions is modelled for chain appends alone.
- ChainAppend.EveryRunIsLinear: one job's rows; isolation is that a transaction sees committed rows and its own.
- Liveness: a crash between two commits can leave a job parked, so the project shows that a job can go on, not that it does.
- The SSN, phone, email, license-plate and date-of-birth rules: library regular expressions and small range checks.
- Deleting a job or document, HTTP codes, authentication, tenants, roles, activity logging, pagination, metrics, storage providers, queue plumbing and migrations.
- Upload validation and the page artifacts' contents: ingest stages opaque objects under their keys.
