# Line reconstruction from OCR detections

This project models `extract_text_as_lines`, the part of the EasyOCR demo
program that turns the engine's detections into lines of text. The same
function appears in the command-line program (`OCR_demo.py:16-64`) and in
the web service (`main.py:19-53`); the two copies are the same statements,
so one model serves both.

A detection `(bbox, text, prob)` is reduced to what the function reads: the
y coordinate of the box's top-left corner and the text (`Detections.Detection`).
The function works in three steps:

1. `result.sort(key=lambda x: x[0][0][1])` sorts the detections in place,
   stably, by top-left y. `StableSort.SortByTopLeftY` is an in-place insertion
   sort on an array, proved to produce `StableSort.SortByY` of the input.
   `SortByY` is proved sorted, a permutation and stable, and it is proved to
   be the only stable sort by y. So Python's Timsort gives the same sequence.
2. One pass over the sorted detections keeps an open line and a reference
   `current_y`, fixed to the y of the line's first member. A detection whose
   distance from the reference is strictly greater than `threshold` closes
   the open line and opens a new one. `LineScan.Scan` is that loop as a fold;
   `LineScan.IsGreedyPartition` describes the lines without the loop. For a
   non-negative threshold, the lemmas prove the loop yields a greedy
   partition, and no other partition is greedy.
3. Every line's tokens are joined by `' '.join`. The program never splits a
   line again; `Detections.Split` models `str.split(' ')` only to state that
   the join keeps token boundaries: `Detections.SplitJoin` proves that it
   undoes the join of a non-empty list of tokens none of which holds a
   space.

`OcrDemo.ExtractTextAsLines` is the function's body after `reader.readtext`.
It copies the detections into an array, sorts them in place, and with no
detections returns `[]`: there `result[0]` raises `IndexError`, which the
generic handler catches. Otherwise it runs the source's loop, with invariants
tying `lines`, `current_line` and `current_y` to `Scan`. Its result is
`OcrDemo.ExtractLines`; the lemmas beside it state what that result is.
`OcrService.ExtractTextAsLines` is the web service's copy.

Three consequences of the code shape what the lines look like:

- The tokens of a line are not reordered by x. They stay in the order of
  the y sort (`OcrDemo.YOrderWithinLine`). So, with the default threshold
  of 10, detections at y 0 ("Hello") and y 1 ("World") give
  `"Hello World"` whatever their x.
- The reference is pinned to the line's first member, not to the last
  detection read. With y values 0, 8 and 16 and a threshold of 10, the
  third detection opens a second line (`OcrDemo.PinnedNotRollingExample`),
  even though each gap between neighbours is 8.
- The threshold is an integer and is not checked. The web service passes
  any integer from the request. With a negative threshold, the first
  detection, compared with its own y, closes the still empty open line.
  The result is then an empty string followed by one line per detection
  (`OcrDemo.NegativeThreshold`).

## Model

| member | source | states |
|---|---|---|
| Detections.Abs | OCR_demo.py:46 | defines Python's `abs` on integers, the distance in the line test |
| Detections.Join | OCR_demo.py:47 | defines `' '.join`: the tokens separated by single spaces, `""` for no tokens |
| Detections.Split | OCR_demo.py:47 | defines `str.split(' ')`, which the program never calls; it is used only to state that the join keeps token boundaries, and always yields at least one piece, none holding a space |
| Detections.SplitJoin | OCR_demo.py:47 | splitting the single-space join of a non-empty list of tokens without spaces gives the tokens back |
| StableSort.InsertByY | OCR_demo.py:35 | defines one step of the stable sort: the new detection goes after every leading element of equal or smaller y; the result is one longer |
| StableSort.SortByY | OCR_demo.py:35 | defines the stable sort by top-left y (`key=lambda x: x[0][0][1]`) as insertion of the elements in input order |
| StableSort.SortByTopLeftY | OCR_demo.py:35 | sorting the array in place leaves it holding `SortByY` of its old contents |
| StableSort.InsertIntoSorted | OCR_demo.py:35 | one insertion pass over a sorted prefix leaves the prefix as the old prefix with the new element inserted after every element of equal or smaller y, and leaves the rest of the array unchanged |
| StableSort.SortByYSorted | OCR_demo.py:35 | the sorted detections are non-decreasing in top-left y |
| StableSort.SortByYPermutation | OCR_demo.py:35 | the sort keeps the length and the multiset of detections |
| StableSort.SortByYStable | OCR_demo.py:35 | detections with equal top-left y keep their input order |
| StableSort.SortByYIsTheStableSort | main.py:26 | any sequence sorted by y that keeps every equal-y subsequence of the input is the model's sort, so Python's stable sort gives the same order |
| LineScan.Step | OCR_demo.py:46-51 | defines one iteration: a distance to the reference strictly above the threshold closes the open line and opens one holding the detection, with its y as reference; otherwise the detection is appended to the open line |
| LineScan.Scan | OCR_demo.py:41-51 | defines the loop as `Step` applied to each detection in order, from no lines, an empty open line and a given reference |
| LineScan.LineGroups | OCR_demo.py:37-55 | defines the lines before joining: none for no detections, otherwise the pass from reference `result[0]`'s y, with the open line added at the end only when non-empty (`if current_line:`) |
| LineScan.ScanAppend | OCR_demo.py:41-51 | the pass over a prefix followed by one detection is one more iteration after the pass over the prefix |
| LineScan.StepFacts | OCR_demo.py:46-51 | after an iteration the open line ends with the detection read; the reference is unchanged, or the open line is just that detection and the reference its y; and either no line was closed or exactly the old open line was |
| LineScan.StepConserves | OCR_demo.py:46-51 | an iteration adds exactly the detection read to the closed lines followed by the open line |
| LineScan.ScanConserves | OCR_demo.py:41-51 | for every threshold, the closed lines followed by the open line concatenate to exactly the detections read, and the open line is non-empty once one has been read |
| LineScan.LineGroupsLastLine | OCR_demo.py:53-55 | there are no lines exactly when there are no detections, and the last line is never empty |
| LineScan.ScanGreedy | OCR_demo.py:39-51 | with a non-negative threshold, after any non-empty prefix the open line is non-empty, the reference is the y of its first member, and the closed lines plus the open line form a greedy partition of the prefix |
| LineScan.LineGroupsGreedy | OCR_demo.py:37-55 | with a non-negative threshold, the lines are a greedy partition: they concatenate to the sorted input, every member lies within the threshold of its line's first member, and each line's first member lies more than the threshold from the previous one's |
| LineScan.ScanOfGreedy | OCR_demo.py:41-51 | for any greedy partition with at least one line, the input is non-empty and the loop's closed lines are all lines but the last, its open line is the last line, and its reference is that line's first y |
| LineScan.GreedyPartitionUnique | OCR_demo.py:41-55 | any greedy partition of the input equals the lines the loop produces |
| LineScan.LineGroupsNegative | OCR_demo.py:39-49 | with a negative threshold, non-empty input gives one empty line followed by one line per detection |
| LineScan.LineGroupsConserve | main.py:32-44 | for every threshold, the lines concatenate to exactly the input in order |
| LineScan.LineGroupsCount | main.py:28-44 | with a non-negative threshold, non-empty input gives between 1 and n lines, none of them empty |
| LineScan.SortedLines | main.py:36-41 | on y-sorted input with a non-negative threshold, every member's y lies between its line's first y r and r + threshold, and each line opens more than the threshold below the previous line's first y |
| LineScan.ScanRefAtMostLast | OCR_demo.py:46-49 | on non-empty y-sorted input with a non-negative threshold, the reference never exceeds the y of the last detection read |
| LineScan.ScanCountMonotone | OCR_demo.py:46-49 | on non-empty y-sorted input with non-negative thresholds, a pass with a larger threshold has closed no more lines at every prefix, and with equally many closed lines its reference is not lower |
| LineScan.LineCountMonotone | OCR_demo.py:41-55 | on y-sorted input, raising the threshold never increases the number of lines |
| OcrDemo.ExtractLines | OCR_demo.py:28-57 | defines the function's result after `reader.readtext`: the lines of the y-sorted detections, each joined by `' '.join` |
| OcrDemo.ExtractTextAsLines | OCR_demo.py:28-64 | the returned lines are `ExtractLines` of the detections, and no detections give no lines (the IndexError caught at 62-64) |
| OcrDemo.LoopStep | OCR_demo.py:46-51 | one iteration either appends the joined open line to `lines`, restarts `current_line` with the text read and moves `current_y` to its y, or appends the text to `current_line` and changes nothing else, according to the strict comparison |
| OcrDemo.LoopEnd | OCR_demo.py:53-57 | for at least one detection, the result is the closed lines joined, followed by the joined open line only when it holds a token |
| OcrDemo.SortByYTexts | OCR_demo.py:35 | the sorted detections carry the same multiset of texts as the input |
| OcrDemo.TokensConserved | OCR_demo.py:41-55 | the lines before joining concatenate to the texts in y-sorted order, and hold as a multiset exactly the input texts |
| OcrDemo.LineCountBounds | OCR_demo.py:37-55 | with a non-negative threshold and at least one detection, there are between 1 and n lines, and every line has a token |
| OcrDemo.DetectionLinesGreedy | OCR_demo.py:41-55 | with a non-negative threshold, a partition of the sorted detections is greedy if and only if it is the function's lines |
| OcrDemo.PinnedReference | OCR_demo.py:39-49 | with a non-negative threshold, every line is non-empty, its members lie in `[r, r + threshold]` for its first y r, and consecutive first y values increase by more than the threshold |
| OcrDemo.ThresholdMonotone | OCR_demo.py:41-55 | for fixed detections, raising the threshold never gives more lines |
| OcrDemo.NegativeThreshold | OCR_demo.py:39-55 | with a negative threshold and at least one detection, the result is `""` followed by every text in y-sorted order, one per line |
| OcrDemo.SortedTextFromInput | OCR_demo.py:35 | every text of the sorted copy is the text of some input detection |
| OcrDemo.LinesSplitBack | OCR_demo.py:47-55 | with a non-negative threshold and no text holding a space, there is one returned line per token line, and splitting each returned line on spaces gives that line's tokens in scan order |
| OcrDemo.SortedUnchanged | OCR_demo.py:35 | detections already in y order are left as they are by the sort |
| OcrDemo.PinnedNotRolling | OCR_demo.py:46-49 | for three detections in y order where the second lies within the threshold of the first and the third beyond it, the third opens a new line even when it lies within the threshold of the second |
| OcrDemo.PinnedNotRollingExample | OCR_demo.py:46-49 | y values 0, 8, 16 with the default threshold give `["a b", "c"]` |
| OcrDemo.TwoDetections | OCR_demo.py:46-51 | two detections in y order, with a non-negative threshold, share a line if and only if their gap is at most the threshold |
| OcrDemo.GapAtThreshold | OCR_demo.py:46 | with the default threshold, a gap of exactly 10 joins the line; a gap of 11 splits it |
| OcrDemo.YOrderWithinLine | OCR_demo.py:35-51 | two detections read out of y order but within the threshold come out on one line in y order |
| OcrDemo.YOrderExample | OCR_demo.py:35-51 | "World" at y 1 read before "Hello" at y 0 gives `["Hello World"]` |
| OcrService.ExtractTextAsLines | main.py:19-53 | the web service's copy returns the same lines as the command-line copy, and no lines for no detections (the IndexError caught at 51-53) |

## Left out

- `initialize_reader`, `easyocr.Reader` and `reader.readtext` call into the OCR engine. The detections they return are the model's input.
- The file-existence check, `FileNotFoundError` and the `print` calls in the handlers are filesystem access and logging. A missing file also returns `[]`; the model has no files.
- Other faults the generic handler swallows, such as a malformed box or tuple, cannot arise: the `Detection` type is well formed by construction.
- `prob`, the box's other corners and every x coordinate are never read by the code, so they are not in `Detection`.
- Coordinates are integers. EasyOCR may report floating-point coordinates; the comparisons are modelled on exact integers.
- `StableSort.SortByTopLeftY` sorts by insertion, not by Timsort. `StableSort.SortByYIsTheStableSort` shows the resulting order is the same. Running time is not modelled.
- `OcrDemo.ExtractTextAsLines` sorts a local array copy of the detections. The Python list it stands for is local to the function, so no caller sees it change.
- `main()`, `torch.cuda.is_available`, the hard-coded image path, the FastAPI endpoint, its upload handling, its JSON responses and the uvicorn startup are process setup and HTTP plumbing.
