# Smart bird feeder: decision and naming logic

A model, in Dafny, of the small amount of decision and path logic in a
hobby bird feeder. A camera frame goes through a classifier. If a label in
the result is one of the deterrent animals, the feeder plays a sound and
saves the frame and its results to a storage directory. A web viewer lists
the saved frames. The model covers:

- **`do_training`** (`bird_classify.py`): the training-mode divergence
  test. It is a pure function over the sets of first components of two
  result lists.
- **The frame callback's loop** (`bird_classify.py`). It walks the
  classifier results, looks each label id up in the label table and checks
  the label against `DETER_LABELS`. On the first match it plays the sound,
  saves the frame and stops. The pure `Decide` function gives the decision.
  The `UserCallback` method runs the same loop and returns the side effects
  it issues, as a trace.
- **`save_data`** (`bird_classify.py`). It builds the `'%010d'` timestamp
  tag and the two sibling names `path/img-TAG.ext` and `path/img-TAG.json`.
  The store is a `Store` class whose map field `files` takes the two writes.
- **The viewer pages `index` and `review_deter_triggers`** (`app.py`).
  Each is a loop that builds a list of rows over a directory listing. Each
  is modelled as a method, proved equal to a recursive specification
  function, and the listed properties are proved about that function.

Modules: `Wrappers` (Option/Result), `Strings` (`str.endswith`,
`str.replace`, substring `in`, `os.path.join`, `'%0Nd'`), `Json` (the
values `json.load` returns and Python's `in` on them), `BirdClassify`,
`App`, and `RoundTrip` (lemmas that connect the names `save_data` writes to
the names the viewer derives).

Modelling choices:

- A Python exception is a value. A label id missing from the label table
  (`labels[result.id]` raising `KeyError`) is `Decision.MissingLabel`. A
  viewer page that raises (`open` of a missing file, `json.load` of a file
  that is not JSON, `'deter' in` a number, boolean or null) returns
  `Failure`. The result is the first error in listing order.
- The callback loop walks all the results, as the code does. The code
  requests `top_k=1` (bird_classify.py:131), so in practice only the
  top-ranked entry is ever looked at.
- `json.dump` of the result list is modelled as an array of `[id, score]`
  pairs, because each entry is a two-field named tuple and is written as a
  JSON array.
- Consequence of that encoding (lemmas `SavedResultsHoldNoDeter` and
  `SavedFramesNeverReviewed`): as written, the review page never reports a
  frame that `save_data` saved. Its test `'deter' in results` looks for the
  string `"deter"` among elements that are all arrays. The viewer has no
  label table to map ids to names, so the intended test cannot be
  recovered from the viewer alone. The model keeps the code as written.
- `Json.Contains` is Python's `needle in value` on a loaded JSON value:
  element test on a list, key test on a dict, substring test on a string,
  and `TypeError` (`None`) on a number, boolean or null. `App.Load` is
  `json.load(open(path))`: the stored JSON value, `FileNotFound` for a
  missing path, `InvalidJson` for a file that is not JSON. Both stand in
  for library calls, so their contracts only spell out those cases; the
  properties about them are the page lemmas below.
- The store is a map from full path to content. A directory listing is a
  sequence of names. `ListsDirectory` states when a listing is complete for
  a store.
- The two page methods read the directory named by the constant
  `STORAGE_PATH`, as the source does. Their specification functions
  are stated for any directory.
- The timestamp `int(time.monotonic()*1000)` is an integer parameter. The
  negative case of `'%010d'` (sign first, then zeros) is modelled although
  a monotonic clock does not produce it.

## Model

| member | source | states |
|---|---|---|
| BirdClassify.DoTraining | bird_classify.py:67-77 | `do_training`: a divergence is reported when fewer than `top_k` labels are shared; a `top_k` of 0 or less never reports one |
| BirdClassify.DoTrainingFewResults | bird_classify.py:71-76 | fewer current results than `top_k` always report a divergence, whatever the previous results |
| BirdClassify.DoTrainingDetectsDifference | bird_classify.py:67-77 | the docstring's promise: when neither list has more than `top_k` entries (as `get_classes(..., top_k)` returns), a label in one list and not in the other reports a divergence |
| BirdClassify.SharedLabelsMeaning | bird_classify.py:71-73 | a label is in the intersection exactly when it is the first component of some entry of the current list and of some entry of the previous list |
| BirdClassify.DoTrainingDependsOnlyOnLabels | bird_classify.py:71-74 | the answer of `do_training` depends only on which labels occur in each list: lists with the same labels may be swapped in either argument |
| BirdClassify.DoTrainingIgnoresOrderAndRepeats | bird_classify.py:71-73 | lists with the same entries (reordered or repeated) give the same answer, in either argument |
| BirdClassify.DoTrainingIgnoresScores | bird_classify.py:71-72 | changing the scores (second components) of a list leaves the answer unchanged, in either argument |
| BirdClassify.DoTrainingSelf | bird_classify.py:73-77 | comparing a list with itself never reports a divergence when it has at least `top_k` distinct labels |
| BirdClassify.DoTrainingEmptyLast | bird_classify.py:73-76 | against an empty previous list, any `top_k >= 1` reports a divergence |
| BirdClassify.DoTrainingExample | bird_classify.py:73-76 | current {cat, fox} against previous {cat, dog, bird} with `top_k` 3 shares one label, so it diverges |
| BirdClassify.Decide | bird_classify.py:137-141 | the loop's outcome: a deterrence only ever names a deterrent label, and a `KeyError` only ever an id absent from the table, and only for a non-empty result list |
| BirdClassify.DecideNoAction | bird_classify.py:137-141 | the loop takes no action exactly when every entry's id is in the label table and no label is a deterrent label |
| BirdClassify.DecideDeter | bird_classify.py:137-141 | the loop deters on label `l` exactly when some entry's label `l` is a deterrent label and every earlier entry was looked up without matching: first match, then stop |
| BirdClassify.DecideMissing | bird_classify.py:137-138 | the loop raises `KeyError` for `id` exactly when the first entry that is not a non-matching lookup has the id `id`, absent from the table |
| BirdClassify.DeterIffSomeLabelMatches | bird_classify.py:137-138 | with every id in the table, a deterrence happens exactly when some entry's label is an exact member of the deterrent labels; an empty result list triggers nothing |
| BirdClassify.CaseSensitiveMatch | bird_classify.py:119-125 | matching is exact and case-sensitive: "Cat" does not match the deterrent label "cat" |
| BirdClassify.UserCallback | bird_classify.py:137-141 | the loop's decision is `Decide`; on a deterrence the trace is exactly the sound followed by one save of the frame with the full result list, otherwise it is empty; so at most one sound and one save per frame, sound first |
| BirdClassify.CallbackScenarios | bird_classify.py:137-141 | a cat at 0.92 with the label table {7: cat, 8: sparrow} sounds the deterrent and saves the frame with its results; a sparrow does nothing |
| BirdClassify.Tag | bird_classify.py:47 | the `'%010d'` tag of a timestamp is at least 10 characters long |
| BirdClassify.ImageName | bird_classify.py:48 | `'%s/img-%s.%s'`: the image name starts with the directory and `/img-`, ends with `.` and the extension, and is 6 characters longer than its three parts |
| BirdClassify.ResultsName | bird_classify.py:53 | `'%s/img-%s.json'`: the results name starts with the directory and `/img-`, ends with `.json`, and is 10 characters longer than its two parts |
| BirdClassify.EncodeResults | bird_classify.py:55 | `json.dump` of the result list is a JSON array with one element per result |
| BirdClassify.ResultsRoundTrip | bird_classify.py:53-55 | the results file written for a result list reads back as exactly that list |
| BirdClassify.Saved | bird_classify.py:44-55 | after `save_data` the store holds exactly the old names plus the image name and the results name, and the results name holds the encoded results |
| BirdClassify.NamesCoincideIff | bird_classify.py:48-53 | the image name and the results name coincide exactly when `ext` is "json" |
| BirdClassify.SaveAddsImageAndResults | bird_classify.py:47-55 | with `ext` other than "json", a save adds exactly two distinct entries (the image under its name, the full results under the `.json` name) and leaves every other entry unchanged |
| BirdClassify.SaveWithJsonExtension | bird_classify.py:48-55 | with `ext` "json" both writes go to one name and the results overwrite the image |
| BirdClassify.TagShape | bird_classify.py:47 | the tag of a non-negative timestamp is all digits, at least 10 of them and exactly 10 below 10^10; every tag reads back as its timestamp and contains neither '.' nor '/' |
| BirdClassify.NamesDetermineTag | bird_classify.py:48-53 | a file name determines the tag inside it |
| BirdClassify.DistinctTimestampsDistinctNames | bird_classify.py:47-53 | different timestamps give different image names and different results names |
| BirdClassify.Store.SaveData | bird_classify.py:44-55 | the store afterwards is the old store with the image written under the image name, then the results under the results name |
| Strings.FormatZeroPadded | bird_classify.py:47 | `'%0Nd'`: at least N characters; a non-negative number gives only digits, exactly N of them when its decimal form fits; a negative one starts with '-' |
| Strings.FormatZeroPaddedRoundTrip | bird_classify.py:47 | `'%0Nd'` formatting is undone by reading the digits (with an optional sign) back, for every integer |
| Strings.FormatZeroPaddedShape | bird_classify.py:47 | a non-negative number formatted with `'%0Nd'` is all digits, never shorter than N, exactly N long when it has at most N digits |
| Strings.ReplaceAll | app.py:16 | `str.replace`: a replacement as long as the pattern keeps the length, and replacing the pattern by itself changes nothing |
| Strings.Join | app.py:17 | `os.path.join(a, b)` always ends with `b` |
| Strings.ReplaceOnlySuffix | app.py:16 | in a string without the pattern's first character, the pattern appended at the end is the only occurrence `replace` substitutes |
| App.IndexSpec | app.py:14-20 | what `index` renders: never more rows than listed names, and it fails only on a sidecar that is not JSON |
| App.PairedPngsMembers | app.py:15-17 | a name is kept exactly when it is listed, ends with `.png` and its `.replace('.png','.json')` sidecar exists; never more names than listed |
| App.PairedPngsDistinct | app.py:14-17 | a listing that repeats no name, as `os.listdir` returns, keeps no paired `.png` name twice |
| App.IndexRowsDistinct | app.py:14-20 | for such a listing, no two rows of a rendered `index` page show the same image |
| App.IndexSucceedsIff | app.py:17-19 | the index page renders exactly when every existing sidecar of a listed `.png` holds JSON |
| App.IndexVisits | app.py:14-20 | on success the rows are, in listing order, the paired `.png` names, each with exactly the contents stored under its sidecar |
| App.IndexFailure | app.py:18-19 | on failure the error names an existing sidecar of a listed `.png` that is not JSON |
| App.Index | app.py:13-21 | the loop's result is the index specification for the storage directory |
| App.TriggersSpec | app.py:34-39 | what `review_deter_triggers` renders: never more rows than listed names |
| App.DeterFilesMembers | app.py:35-38 | a name is kept exactly when it is listed, ends with `.json`, loads, and its results contain "deter"; never more names than listed |
| App.TriggersSucceedIff | app.py:35-38 | the review page renders exactly when every listed `.json` file loads and its results are a list, dict or string |
| App.TriggersVisits | app.py:34-39 | on success the rows are, in listing order, the trigger files, each reported under `.replace('.json','.png')` with exactly its loaded results, which contain "deter" |
| App.ReviewDeterTriggers | app.py:33-40 | the loop's result is the review specification for the storage directory |
| RoundTrip.SaveNamesPairUp | app.py:16 | on `save_data` names, `.replace('.png','.json')` gives exactly the results file written beside the image and `.replace('.json','.png')` gives back the image: the two renamings are mutual inverses |
| RoundTrip.JoinGivesSaveNames | app.py:17 | in a non-empty directory named without a trailing '/', joining it with a saved base name gives the full names `save_data` wrote |
| RoundTrip.ReplaceIsNotSuffixOnly | app.py:16 | `replace` substitutes every occurrence: `a.png.png` pairs with `a.json.json` |
| RoundTrip.SavedPngName | bird_classify.py:48 | a saved image's base name ends with `.png` and holds no '/' |
| RoundTrip.SavedPngIsPaired | app.py:15-17 | for a non-empty storage path without a trailing '/', a saved `.png` is paired, and its sidecar is the results file written beside it, holding exactly the saved results |
| RoundTrip.CompleteListingNamesSavedPng | app.py:15 | for a non-empty storage path without a trailing '/', a complete listing of the storage directory after a save names the saved `.png` |
| RoundTrip.SavedFrameIsListed | app.py:14-20 | for a non-empty storage path without a trailing '/', a frame saved by `save_data` and listed is found by `index`: a rendered page has a row with its name and exactly the saved results, and a failing page fails on another file |
| RoundTrip.SavedFrameListedOnce | app.py:14-20 | for a non-empty storage path without a trailing '/', and a listing that names the saved `.png` and repeats no name (as `os.listdir` returns), a rendered `index` page holds exactly one row named after the saved `.png`, and that row carries exactly the saved results |
| RoundTrip.SavedResultsHoldNoDeter | app.py:38 | the results of any saved frame do not contain "deter" |
| RoundTrip.SavedFramesNeverReviewed | app.py:34-39 | no row of a rendered review page carries the results of a frame saved by `save_data` |

## Left out

- Camera pipeline, interpreter setup, `common.set_input`, `get_classes` and label-file reading (bird_classify.py:113-116, 129-131, 143): external inference and video. The classifier output and the label table are inputs.
- `playsound` and PIL's `image.save` (bird_classify.py:49, 139): foreign audio and image I/O. They are trace events, or a store write of the frame tagged with its extension. A failing sink, such as an unknown image extension or a missing sound file, is not modelled.
- `time.monotonic` (bird_classify.py:47, 128, 132): the clock. The millisecond timestamp is a parameter.
- `print`, `logging.info` and `print_results` (bird_classify.py:50-51, 58-64, 75, 134-135): console output and float arithmetic. `print_results` is called with `last_time`, which is never defined in `main`, so `--print` would raise `NameError`. That path is not modelled.
- `user_selections` and the argparse block (bird_classify.py:80-111): command-line parsing. `main`'s parser defines no `--training` or `--top_k` flag, and nothing calls `do_training`. It is modelled on its own, over generic `(label, score)` pairs.
- Flask routing, `render_template`, `redirect` and `update_classification` (app.py:1-11, 21-31, 40-43): web framework glue and a stub. A page is modelled as the list of rows it would render.
- `os.listdir`, `os.path.exists` and `json.load` (app.py): real file-system I/O. The directory is a listing plus a map, and JSON content is a `Json` value. Sub-directories and unreadable files are not modelled.
- RoundTrip.SavedFrameListedOnce, RoundTrip.SavedPngIsPaired, RoundTrip.CompleteListingNamesSavedPng, RoundTrip.SavedFrameIsListed (and RoundTrip.JoinGivesSaveNames): stated only for a non-empty storage path without a trailing '/'. Store keys are compared as strings and paths are never normalised, so `save_data`'s `d//img-T.png` for a path `d/` and `os.path.join('d/', 'img-T.png')` are different keys in the model, while a real file system treats them as the same file. That case is outside the model. The empty path is left out because there the two programs really name different files: `save_data` writes the absolute `/img-T.png`, while `os.path.join('', 'img-T.png')` is the relative `img-T.png`.
- BirdClassify.SaveWithJsonExtension: describes the abstract store only. With `ext` "json", PIL's `image.save` would reject the unknown extension and raise at bird_classify.py:49 before anything is written; failing sinks are not modelled.
- Floating-point scores: `Class.score` and JSON numbers are exact `real`s, not IEEE doubles. No decision reads the score; only the results round trip carries it.
- Atomicity of the two writes in `save_data`: a crash between them is not modelled. The store update is the two writes in sequence.
