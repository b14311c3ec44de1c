# PII redaction Lambda, modelled in Dafny

The Lambda handler takes an event with a `text` field. It runs three input
checks and sends accepted text to a remote PII detector. It then redacts every
detected entity by replacing its span with a `[<Type>]` placeholder.

The redactor, `redact_pii`, first sorts the entities by `BeginOffset`, largest
first. Python's `sorted` is stable, so entities with equal begins keep their
input order. It then splices `text[:begin] + "[" + Type + "]" + text[end:]`
for each entity in that order. Working right to left means a splice never
moves the characters below its `begin`. Lower entities can therefore keep
using the offsets of the original text.

The model has seven modules:

- `Spans` (`spans.dfy`): the `Entity` datatype (begin, end, type label) and
  the span relations used by the proofs: in bounds, `Before`, disjoint,
  descending, right-to-left chain.
- `StableSort` (`stable_sort.dfy`): the stable descending sort, written as an
  insertion sort. It is proved to be a permutation, descending and stable. It
  is also proved to be the only arrangement with those properties.
- `Redactor` (`redactor.dfy`): Python slice-bound semantics, the splice, the
  loop as a fold (`ApplyAll`) and as a method (`RedactPii`), and `Redact`. It
  also holds an independent reference definition (`Layout`: the gaps between
  the spans, left to right, alternated with the placeholders) and the
  theorems connecting the two.
- `Scenarios` (`scenarios.dfy`): example inputs with their exact outputs,
  including the inputs that show why the theorems need disjoint, well-formed
  spans.
- `Utf8` (`utf8.dfy`): UTF-8 encoding per RFC 3629, section 3 (one to four
  bytes per code point), with a decoder and the round trip.
- `Whitespace` (`whitespace.dfy`): Python's whitespace set and `str.strip()`.
- `Handler` (`handler.dfy`): the three ordered input checks and the handler's
  dispatch. The detector is a function parameter.

Offsets count code points, which is how Python strings index. Slicing follows
Python exactly: a negative bound counts from the end, and every bound is
clamped to the text. So `Redact` is total, as the source is. Bounds and
disjointness appear only as preconditions of the theorems that need them.

Disjointness (`Spans.Disjoint`) means one span lies wholly before the other
*and* starts strictly earlier. The strict start matters for zero-width spans.
Two zero-width entities at the same offset never overlap, yet the output
depends on their input order (`Scenarios.SameOffsetOrderMatters`). Every
non-empty pair of non-overlapping spans satisfies this definition.

What the code does with unusual input:

- The code validates no span. A reversed span duplicates the characters
  between `end` and `begin` (`Scenarios.ReversedSpanDuplicates`).
  Overlapping spans corrupt the output. The lower splice's original offsets
  land in text the higher splice has already shifted. So it can cut into the
  higher placeholder (`Scenarios.OverlapCorrupts`), or leave characters of the
  lower span unredacted (`Scenarios.NestedSpanLeaks`).
- Entities with equal begins keep their input order, because `sorted` is
  stable (`StableSort.SortDescStable`).
- An `end` past the text is clamped by the slice, so
  `"Alice lives at 123 Main St"` with an address span `[15, 27)` still becomes
  `"[NAME] lives at [ADDRESS]"` (`Scenarios.NameAndAddress`).

## Model

| member | source | states |
|---|---|---|
| `Redactor.RedactPii` | Module_01/Demo_Redact_PII/pii_redaction_lambda.py:14-40 | The source's loop (sort, then splice each entity with Python slicing) computes `Redact`. Its invariant is that after i iterations `redacted_text` is the fold over the first i sorted entities. With no entities the text comes back unchanged. |
| `Redactor.Redact` | Module_01/Demo_Redact_PII/pii_redaction_lambda.py:14-40 | `redact_pii` as a function: the fold of the splice over the entities in stable descending `BeginOffset` order. Its properties are stated by `RedactPii`, `RedactIsLayout`, `RedactLength` and `DisjointOrderIndependent`. |
| `Redactor.SliceBound` | Module_01/Demo_Redact_PII/pii_redaction_lambda.py:38 | Python's normalisation of a slice bound: the result always lies in `[0, len(text)]`, and an in-range bound is kept as is. |
| `Spans.Token` | Module_01/Demo_Redact_PII/pii_redaction_lambda.py:38 | The placeholder `f"[{entity_type}]"`: the type label between square brackets, two characters longer than the label. |
| `Redactor.Splice` | Module_01/Demo_Redact_PII/pii_redaction_lambda.py:38 | One loop step, `text[:begin] + "[" + Type + "]" + text[end:]`, with both bounds normalised by `SliceBound`. |
| `Redactor.SpliceKeeps` | Module_01/Demo_Redact_PII/pii_redaction_lambda.py:38 | For any bounds, including negative, reversed or past the end, the step keeps the text below the normalised `begin`, then has exactly the placeholder, then exactly the text from the normalised `end` on. The length follows from these three parts. |
| `Redactor.ApplyAll` | Module_01/Demo_Redact_PII/pii_redaction_lambda.py:29-38 | The loop over the already-sorted list: `redacted_text` starts as `text` and each entity applies one splice. |
| `Redactor.ApplyAllSnoc` | Module_01/Demo_Redact_PII/pii_redaction_lambda.py:32-38 | One more loop iteration is one more splice on the result so far. `RedactPii`'s invariant rests on this. |
| `Redactor.NoEntities` | Module_01/Demo_Redact_PII/pii_redaction_lambda.py:29-40 | An empty entity list leaves the text unchanged. |
| `StableSort.SortDesc` | Module_01/Demo_Redact_PII/pii_redaction_lambda.py:26 | The sorted list is a permutation of the entities, ordered by `BeginOffset`, largest first. |
| `StableSort.SortDescStable` | Module_01/Demo_Redact_PII/pii_redaction_lambda.py:26 | For every offset, the entities starting there keep their input order (Python's `sorted` is stable, also with `reverse=True`). |
| `StableSort.SortDescIsStableSort` | Module_01/Demo_Redact_PII/pii_redaction_lambda.py:26 | Any descending arrangement that keeps each offset's entities in input order is exactly the sort's result. |
| `StableSort.SortDescChain` | Module_01/Demo_Redact_PII/pii_redaction_lambda.py:25-26 | For pairwise-disjoint entities, the sorted order is right to left: each entity lies wholly before every entity processed ahead of it. |
| `Redactor.SpliceInBounds` | Module_01/Demo_Redact_PII/pii_redaction_lambda.py:38 | An in-bounds splice keeps `text[:begin]` and `text[end:]` exactly and inserts exactly `"[" + Type + "]"` between them. The length changes by the placeholder's length minus the span's length. |
| `Redactor.ApplyFrame` | Module_01/Demo_Redact_PII/pii_redaction_lambda.py:25 | Right-to-left splices inside a prefix never touch the text after that prefix. |
| `Redactor.PrefixInvariant` | Module_01/Demo_Redact_PII/pii_redaction_lambda.py:25-38 | For disjoint spans in right-to-left order: before step k, the loop's text (by `RedactPii`'s invariant, the fold over the first k entities) agrees with the original below the previous begin. So the slice of step k is in range and removes exactly the original span characters. |
| `Redactor.ApplyChain` | Module_01/Demo_Redact_PII/pii_redaction_lambda.py:32-38 | Splicing a right-to-left chain of in-bounds spans gives the reference layout of the same spans read left to right. |
| `Redactor.RedactIsLayout` | Module_01/Demo_Redact_PII/pii_redaction_lambda.py:26-38 | For pairwise-disjoint in-bounds entities, the output is the original gaps between the spans, in ascending order, alternated with the `[Type]` placeholders. This holds for any left-to-right arrangement of the same entities, so every character outside the spans is kept in order. |
| `Redactor.LeftToRightExists` | Module_01/Demo_Redact_PII/pii_redaction_lambda.py:26-38 | For disjoint in-bounds entities, the reversed sort order is such a left-to-right arrangement. |
| `Redactor.OrderIndependent` | Module_01/Demo_Redact_PII/pii_redaction_lambda.py:26 | Entities with pairwise different begins give the same output in every input order. |
| `Redactor.DisjointOrderIndependent` | Module_01/Demo_Redact_PII/pii_redaction_lambda.py:26 | Pairwise-disjoint entities give the same output in every input order. |
| `Redactor.RedactLength` | Module_01/Demo_Redact_PII/pii_redaction_lambda.py:38 | For disjoint in-bounds entities, output length = text length − Σ(end − begin) + Σ(\|Type\| + 2). |
| `Redactor.WholeTextSpan` | Module_01/Demo_Redact_PII/pii_redaction_lambda.py:38 | One entity covering the whole text yields exactly `"[" + Type + "]"`. |
| `Scenarios.PhoneNumber` | Module_01/Demo_Redact_PII/pii_redaction_lambda.py:14-40 | `"Call 555-1234 now"` with a PHONE entity at [5, 13) becomes `"Call [PHONE] now"`. |
| `Scenarios.NameAndAddress` | Module_01/Demo_Redact_PII/pii_redaction_lambda.py:26-38 | Two entities given lowest first are processed highest first. An `end` past the text is clamped by the slice. |
| `Scenarios.BoundarySpans` | Module_01/Demo_Redact_PII/pii_redaction_lambda.py:38 | Spans covering the first and the last character redact without leaving the text. |
| `Scenarios.OverlapCorrupts` | Module_01/Demo_Redact_PII/pii_redaction_lambda.py:32-38 | Overlapping spans are not detected. The lower splice cuts into the higher one's placeholder. |
| `Scenarios.NestedSpanLeaks` | Module_01/Demo_Redact_PII/pii_redaction_lambda.py:32-38 | Nested spans are not detected either. `"abcdef"` with `[0, 6)` around `[1, 2)` becomes `"[A]ef"`: the inner placeholder vanishes and `e`, `f`, which lie inside the outer span, are not redacted. |
| `Scenarios.ReversedSpanDuplicates` | Module_01/Demo_Redact_PII/pii_redaction_lambda.py:33-38 | A span with `begin > end` is not rejected. The characters between them appear twice. |
| `Scenarios.SameOffsetOrderMatters` | Module_01/Demo_Redact_PII/pii_redaction_lambda.py:26 | Two zero-width entities at one offset come out in reverse input order, so their input order changes the output. |
| `Handler.CheckRequest` | Module_01/Demo_Redact_PII/pii_redaction_lambda.py:55-75 | The checks run in order and the first failure wins: a missing `text` key, then text that is empty or all whitespace, then text over 100000 UTF-8 bytes. Text is accepted exactly when it passes all three, and the accepted text is the event's text. |
| `Handler.Message` | Module_01/Demo_Redact_PII/pii_redaction_lambda.py:55-75 | The three error strings of the 400 responses, one per failed check, verbatim. |
| `Handler.Handle` | Module_01/Demo_Redact_PII/pii_redaction_lambda.py:55-98 | Status 400 with the check's message exactly when a check fails. Otherwise status 200 with the original text, the detector's entities for that text and their redaction. |
| `Handler.RejectedNeverDetects` | Module_01/Demo_Redact_PII/pii_redaction_lambda.py:55-88 | A rejected request's response is the same for every detector: only accepted text reaches detection and redaction. |
| `Handler.SizeBoundary` | Module_01/Demo_Redact_PII/pii_redaction_lambda.py:63-75 | For every n, a run of n copies of `a` is rejected as empty when n is 0. It is accepted up to exactly 100000 bytes and rejected as too large from 100001 bytes on. |
| `Handler.WhitespaceBeforeSize` | Module_01/Demo_Redact_PII/pii_redaction_lambda.py:63-75 | Every text that is empty or made only of whitespace (any mix of Python whitespace characters) is rejected as empty, whatever its UTF-8 size. It is never reported as too large, because the emptiness check comes first. |
| `Whitespace.IsSpace` | Module_01/Demo_Redact_PII/pii_redaction_lambda.py:64 | The characters `str.strip()` removes: Python's whitespace table (TAB to CR, FS to SPACE, NEL, NBSP, OGHAM SPACE MARK, U+2000 to U+200A, LINE and PARAGRAPH SEPARATOR, NARROW NBSP, MEDIUM MATHEMATICAL SPACE, IDEOGRAPHIC SPACE). |
| `Whitespace.SkipLeading` | Module_01/Demo_Redact_PII/pii_redaction_lambda.py:64 | The forward scan of `strip()` passes only whitespace and stops at the first non-whitespace character or at the end. |
| `Whitespace.SkipTrailing` | Module_01/Demo_Redact_PII/pii_redaction_lambda.py:64 | The backward scan passes only whitespace, never goes below where the forward scan stopped, and stops after a non-whitespace character or at that point. |
| `Whitespace.Strip` | Module_01/Demo_Redact_PII/pii_redaction_lambda.py:64 | `strip()` returns text that neither starts nor ends with whitespace. The result is empty (so `not text.strip()` holds) exactly when the text is empty or all whitespace. |
| `Whitespace.StripIsTrimmedSlice` | Module_01/Demo_Redact_PII/pii_redaction_lambda.py:64 | `strip()` returns a contiguous slice of the text, and only whitespace is cut from either side. |
| `Whitespace.StripIdempotent` | Module_01/Demo_Redact_PII/pii_redaction_lambda.py:64 | Stripping a stripped text changes nothing. |
| `Utf8.Width` | Module_01/Demo_Redact_PII/pii_redaction_lambda.py:71 | The UTF-8 byte count of one code point, 1 to 4, by the ranges of RFC 3629 section 3. |
| `Utf8.ByteLength` | Module_01/Demo_Redact_PII/pii_redaction_lambda.py:71 | The size the gate compares, `len(text.encode('utf-8'))`, summed per code point. It lies between the number of code points and four times that. |
| `Utf8.EncodeChar` | Module_01/Demo_Redact_PII/pii_redaction_lambda.py:71 | A code point encodes to 1–4 bytes, as RFC 3629 section 3 assigns by range. A single byte is below 0x80, and every later byte is a continuation byte. |
| `Utf8.DecodeEncodeChar` | Module_01/Demo_Redact_PII/pii_redaction_lambda.py:71 | Decoding the encoding of a code point gives the code point back. |
| `Utf8.Encode` | Module_01/Demo_Redact_PII/pii_redaction_lambda.py:71 | `text.encode('utf-8')` has between \|text\| and 4·\|text\| bytes. |
| `Utf8.ByteLengthIsEncodedLength` | Module_01/Demo_Redact_PII/pii_redaction_lambda.py:71 | The per-code-point width sum the gate compares equals the length of the encoding. |
| `Utf8.EncodeAppend` | Module_01/Demo_Redact_PII/pii_redaction_lambda.py:71 | The encoding of a concatenation is the concatenation of the encodings. |
| `Utf8.AsciiByteLength` | Module_01/Demo_Redact_PII/pii_redaction_lambda.py:71 | ASCII text takes one byte per character. |

## Left out

- The call to the remote PII detector (`pii_redaction_lambda.py:77-85`). The
  detector is a parameter of `Handler.Handle`, and its output is an arbitrary
  entity list.
- JSON serialisation of the response bodies. The bodies are datatypes with
  the same fields.
- The `ClientError` and generic-exception handlers that answer with status
  500, and all logging. These include errors the model cannot produce: a
  `text` value that is not a string, a lone surrogate that fails to encode as
  UTF-8, and an entity without `BeginOffset`, `EndOffset` or `Type`. Event
  values are strings and characters are Unicode scalar values.
- Detector fields other than the two offsets and the type (score and the
  like). `redact_pii` never reads them. The handler echoes the detector's
  entities in `detectedEntities` (`pii_redaction_lambda.py:95`), and the
  model carries only the three modelled fields there.
- `Module_01/Demo_Topic_Modeling/topic_modeling.py`,
  `Module_03/Demo_Async_SDK/comprehend_async_classification.py` and
  `Module_03/Demo_SDK/comprehend_demo.py`. These scripts only orchestrate
  cloud storage, identity, job submission, status polling and printing.
  They contain no logic of their own to model.
- Validation of spans (range, order, overlap). The code performs none. The
  `Scenarios` lemmas show what happens instead.
