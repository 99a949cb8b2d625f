# PDF text and figure assembly, modelled in Dafny

This project models the part of the document converter that turns a PDF into
plain text with figure descriptions woven in (`process_pdf_with_images_and_text`
in `main.py`), together with the two pieces of the image-description call it
relies on: the prompt built by `describe_image_with_llm` and the payload-size
guard of the local vision client's `create`.

For each page, the model follows the code:

1. The page text (`extract_text() or ""`) is split at `'\n'`.
2. Each line gets an approximate position. This is the mean `top` of the
   extracted words whose text occurs in the line, or no position at all.
3. Each image gets its vertical midpoint and a caption
   `"<figure label> <n>: <description>"`. The number `n` comes from a counter
   that runs on across pages.
4. The figures are stably sorted by midpoint.
5. The figures are interleaved with the lines: after each line, pending
   figures are emitted while the line has a position and the figure's
   midpoint is at or greater than it (`fig_y >= avg_y`). Figures still
   pending after the last line go at the end.
6. The lines are joined with `'\n'`, each page is prefixed with
   `--- Page <n> ---\n`, and the pages are joined with a blank line.

Modules:

- `Wrappers`: `Option` and `Result`.
- `Text`: the Python string operations the code uses, each with its laws:
  - the substring test `in`;
  - `split` and `join`;
  - decimal formatting of integers;
  - `strip`.
- `LinePositions`: line positions, and the loop that computes them.
- `Figures`: midpoints, captions, the numbering loop and the stable sort.
- `Interleave`: the merge of lines and figures, as a specification function
  `Merge` and as the nested loop `InterleavePage` proved equal to it.
- `Document`: the page loop and the whole document text.
- `VisionClient`:
  - the prompt text and the single user message with its data URI;
  - the size guard, as nested loops with early exits, proved against the
    specification `PayloadVerdict`;
  - `create` and `describe_image_with_llm` with the network reply as a
    parameter.

The comparison `fig_y >= avg_y` is modelled as written, and the model
compares the numbers exactly as the code does, without reading them as
positions on the page. Because the figures are sorted by midpoint, a line
that lets one pending figure through lets every pending figure through
(`Interleave.SortedTakeAll`). So all of a page's figures end up together,
right after the first line whose position is smaller than or equal to the
least figure midpoint (`Interleave.MergeSortedShape`). For lines at 10, 50
and 90 and a figure at 60, the output is line 10, the figure, line 50, line
90 (`Interleave.ExampleFigureFollowsFirstReachingLine`). With the test the
other way round, "midpoint at most the line position", the figure would
come after line 90 instead.

## Model

| member | source | states |
|---|---|---|
| Text.ContainsIffOccurs | main.py:537 | `needle in hay` holds exactly when the needle occurs at some index of the line |
| Text.Split | main.py:531 | splitting never yields an empty list, and no piece contains the separator |
| Text.JoinSplit | main.py:531 | joining the pieces of a split with the separator gives back the original text |
| Text.SplitWithoutSep | main.py:415 | a text without the separator splits into itself alone |
| Text.SplitAtSep | main.py:415 | splitting at the first separator gives the text before it, then the pieces of the rest |
| Text.SplitJoin | main.py:582 | splitting a join of separator-free pieces gives back the pieces |
| Text.NatToString | main.py:559 | the decimal text of a number is non-empty, all digits, and starts with `0` only for zero |
| Text.ParseFormat | main.py:559 | reading the decimal text of a number back gives the number |
| Text.FormatInjective | main.py:559 | different numbers have different decimal texts |
| Text.StripIsSlice | main.py:519 | `strip()` returns a contiguous slice of its input |
| Text.StripDropsOnlySpace | main.py:519 | every character `strip()` drops, before or after the slice it keeps, is whitespace |
| Text.StripEndsNonSpace | main.py:519 | what `strip()` keeps is empty or starts and ends with a non-whitespace character |
| Text.StripUnchanged | main.py:519 | a text with no whitespace at either end is left unchanged |
| Text.StripIdempotent | main.py:519 | stripping twice is stripping once |
| LinePositions.MatchingTops | main.py:537 | there are at most as many matching tops as words, and none exactly when no word's text occurs in the line |
| LinePositions.PositionAbsentIff | main.py:537-541 | a line has no position (`avg_y = None`) exactly when no word's text occurs in it |
| LinePositions.SumBounds | main.py:539 | the sum of `n` values lies between `n` times the least and `n` times the greatest |
| LinePositions.MeanBetween | main.py:539 | the mean of a non-empty list lies between its least and its greatest element |
| LinePositions.PositionWithinTops | main.py:538-539 | a present position comes from at least one matching word and lies between the least and greatest `top` of the matching words |
| LinePositions.PositionLines | main.py:535-542 | the loop yields one `(line, avg_y)` pair per line, in line order, each with that line's position |
| Figures.Midpoint | main.py:558 | the midpoint is equally far from both edges and lies between them |
| Figures.CaptionParts | main.py:559 | a caption is the figure label, a space, the number's digits, `": "` and the description |
| Figures.CaptionNumberRecoverable | main.py:559 | captions with the same label and description but different numbers differ |
| Figures.CaptionImages | main.py:550-560 | the image loop yields one figure per image, in image order, numbered from the counter on, and advances the counter by the number of images |
| Figures.PageFigsConsecutive | main.py:559-560 | a page's figures carry the consecutive numbers `counter`, `counter + 1`, ... |
| Figures.Insert | main.py:562 | inserting a figure into a list adds exactly that figure |
| Figures.InsertOrdered | main.py:562 | inserting a later-numbered figure after every figure with a midpoint smaller than or equal to its own keeps the list stably ordered |
| Figures.SortByMid | main.py:562 | the sort is a permutation of the figures |
| Figures.SortByMidStable | main.py:562 | the sort orders figures by midpoint and keeps figures of equal midpoint in their input order |
| Figures.StablyOrderedUnique | main.py:562 | only one permutation is stably ordered, so the sort result is determined |
| Interleave.Take | main.py:569-575 | after a line, the inner loop emits the longest run of pending figures whose midpoint is greater than or equal to the line's position, and stops at a figure with a smaller midpoint or at a line without position |
| Interleave.EmitAfterLine | main.py:569-575 | the inner `while` loop advances `fig_idx` exactly to `Take` and emits those figures' captions in order |
| Interleave.EmitRemaining | main.py:577-580 | the trailing loop emits the captions of every figure still pending, in order |
| Interleave.InterleavePage | main.py:565-580 | the nested loop and the trailing loop build exactly the text of `Merge` |
| Interleave.MergeKeepsLines | main.py:567-568 | without the figures, the page output is the page's lines, in order |
| Interleave.MergeKeepsFigs | main.py:569-580 | without the lines, the page output is the sorted figures, in order, each once |
| Interleave.MergeLength | main.py:565-580 | the output has one entry per line and one per figure |
| Interleave.MergeStartsWithLine | main.py:567-568 | the output opens with the page's first line, never with a figure |
| Interleave.MergeExhausted | main.py:567-568 | once every figure is emitted, the remaining lines follow unchanged |
| Interleave.MergeNoFigures | main.py:565-580 | a page without figures is output as its lines |
| Interleave.MergeUnknownPositions | main.py:571 | when no line has a position, every figure goes after the last line |
| Interleave.SortedTakeAll | main.py:569-575 | with sorted figures, a line that lets one pending figure through lets all of them through |
| Interleave.MergeSortedShape | main.py:562-580 | with sorted figures, all figures appear together right after the first line whose position is smaller than or equal to the least figure midpoint, or after the last line if no line's is |
| Interleave.ExampleFigureFollowsFirstReachingLine | main.py:571 | lines at 10, 50 and 90 and a figure at 60 give line 10, the figure, line 50, line 90 |
| Document.ProcessPage | main.py:530-582 | one turn of the page loop produces that page's output and advances the figure counter by the page's image count |
| Document.ProcessPdf | main.py:521-585 | the page loop yields the banner-prefixed page outputs, numbered from 1 and joined by blank lines, with figures numbered on from the previous pages |
| Document.FirstFigureStep | main.py:560 | after page `i` the figure counter has advanced by exactly that page's image count |
| Document.PageStringsAt | main.py:583 | entry `i` of `text_pages` is the banner of page `i + 1` followed by page `i`'s output, numbered on from the earlier pages |
| Document.FiguresNumberedAcrossPages | main.py:524-560 | figure numbers run 1, 2, ... through the whole document without resetting at page boundaries |
| Document.PageKeepsLines | main.py:530-580 | a page's output has one entry per text line and per image, and without the captions it is the page's text lines, in order |
| Document.PageFiguresOrdered | main.py:550-580 | without the text lines, a page's output holds each of the page's figures exactly once, in stable midpoint order |
| Document.PageWithoutImages | main.py:530-582 | a page without images is output as exactly its extracted text |
| Document.EmptyPageText | main.py:530-531 | a page without text still yields one empty line, ahead of its captions |
| VisionClient.CheckItems | main.py:413-426 | the inner loop stops at the first item that stops the scan and returns its verdict |
| VisionClient.DataFieldAfterComma | main.py:415 | `url.split(",")[1]` is the text between the URL's first comma and the next comma or the end |
| VisionClient.ImageItemVerdict | main.py:414-417 | an image item with a data URI is refused as too large exactly when the text after its first comma, up to the next comma, is longer than 3,000,000 characters |
| VisionClient.ImageItemWithoutComma | main.py:414-415 | an image item whose data URI has no comma raises instead of being measured |
| VisionClient.OtherItemsPass | main.py:414 | items that are not `image_url` items are never measured and always pass |
| VisionClient.CheckPayload | main.py:410-426 | the nested loops return the verdict of the first stopping item over all messages, and `Pass` if there is none |
| VisionClient.Create | main.py:408-434 | an oversized image gets exactly the reply "Image too large to process." and nothing is posted; otherwise the messages are posted unchanged together with the given temperature, max_tokens and stream settings; malformed image items raise |
| VisionClient.FirstStopPassIff | main.py:411-426 | a payload passes exactly when every scanned item passes |
| VisionClient.FirstStopAt | main.py:411-426 | the guard's verdict is that of the first item that does not pass |
| VisionClient.FirstStopOversizedIff | main.py:411-426 | a payload is refused as too large exactly when some image item's data is longer than 3,000,000 characters and no earlier item stops the scan |
| VisionClient.LanguageName | main.py:498-500 | a known code maps to its name in the table, and any other code to itself |
| VisionClient.PromptText | main.py:493-504 | the prompt starts with the fixed request, and is exactly that request when the document language is "auto" |
| VisionClient.PromptNamesLanguage | main.py:502-504 | with an explicit document language, the line after the fixed request names that language |
| VisionClient.DescribeGuard | main.py:490-517 | for the single image message, the guard refuses exactly base64 data longer than 3,000,000 characters, so 3,000,000 is still sent |
| VisionClient.DescribeImage | main.py:484-519 | an oversized image is described as "Image too large to process." and nothing is posted; any other image is posted as one user message holding the prompt and the PNG data URI, with temperature 0.7, max_tokens -1 and no streaming, and is described as the endpoint's reply, stripped |

## Left out

- PDF extraction is not modelled: opening the file, `extract_text`, `extract_words`, `page.images`, rendering at 150 dpi and cropping. Each page is given as its text, its words and its image regions.
- Each image's description is not computed inside the page loop. It is given with the image region, so `Figures.CaptionImages` captions descriptions it receives.
- PNG encoding and base64 are not modelled. `VisionClient.DescribeImage` takes the base64 text and requires it to contain no comma, which the base64 alphabet guarantees.
- The HTTP request is not modelled: `requests.post`, the status code, JSON decoding, the 60-second timeout reply and re-raised exceptions.
- `VisionClient.Create` stops at the request it would post. `VisionClient.DescribeImage` takes the endpoint's reply text as a parameter.
- The timeout reply "The LLM request timed out." is not modelled.
- `_convert_to_objects` is not modelled. The model works on the reply text directly.
- The OpenAI client path is not modelled, nor the other providers.
- These parts of `main.py` are not part of this model: MarkItDown conversion, temporary files, `clear_cache`, the Streamlit user interface and `log_debug`.
- The translation table is not modelled.
  - The figure label is a parameter.
  - The UI language's `multilingual_prompt` template is a parameter, already split at its `{}` placeholder.
  - A missing UI language, which would raise KeyError, is not modelled.
- The coordinate conventions of the PDF library are not modelled: word `top` and image `y0`/`y1` are taken as plain numbers, whatever edge of the page each counts from.
- Positions and midpoints are exact reals, not floating-point numbers. Rounding in `sum(...) / len(...)` and `(y1 - y0) / 2.0` is not modelled.
- `Text.Strip` removes only the ASCII characters for which Python's `str.isspace()` holds. Python's `str.strip()` also removes non-ASCII Unicode whitespace.
- `Figures.SortByMid` is an insertion sort that stands in for Python's library `list.sort`. Its properties are proved, and `Figures.StablyOrderedUnique` shows that any stable sort gives the same result.
- `VisionClient.CheckPayload` keeps only the verdict, not `payload_size`, which the code assigns but never uses after the loop.
