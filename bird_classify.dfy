/** The decision and naming logic of the feeder's frame callback
    (bird_classify.py): the training-mode divergence test, the
    match-and-stop loop over classifier results, and the two-file save. */
module BirdClassify {
  import opened Wrappers
  import opened Strings
  import opened Json

  /** One classifier output entry: a label id and its score. */
  datatype Class = Class(id: int, score: real)

  /** A camera frame; its pixels are carried along, never inspected. */
  datatype Frame = Frame(pixels: seq<bv8>)

  /** The labels whose detection sounds the deterrent. */
  const DETER_LABELS: seq<string> := [
    "fox squirrel, eastern fox squirrel, Sciurus niger",
    "heron",
    "otter",
    "cat",
    "mink"
  ]

  // ------------------------------------------------------------ do_training

  /** `[label[0] for label in xs]`. */
  function FirstComponents<L, S>(xs: seq<(L, S)>): (r: seq<L>)
    ensures |r| == |xs|
    ensures forall i :: 0 <= i < |xs| ==> r[i] == xs[i].0
  {
    if xs == [] then [] else [xs[0].0] + FirstComponents(xs[1..])
  }

  /** Some entry of `xs` has first component `x`. */
  predicate HasFirst<L(==), S>(xs: seq<(L, S)>, x: L) {
    exists i :: 0 <= i < |xs| && xs[i].0 == x
  }

  /** `set(new_labels).intersection(old_labels)`. */
  function SharedLabels<L(==), S>(results: seq<(L, S)>, lastResults: seq<(L, S)>): (shared: set<L>) {
    var newLabels := FirstComponents(results);
    var oldLabels := FirstComponents(lastResults);
    (set l | l in newLabels) * (set l | l in oldLabels)
  }

  /** A label is shared exactly when it is the first component of some
      entry of each list. */
  lemma SharedLabelsMeaning<L, S>(results: seq<(L, S)>, lastResults: seq<(L, S)>)
    ensures forall x :: x in SharedLabels(results, lastResults) <==> HasFirst(results, x) && HasFirst(lastResults, x)
  {
    var newLabels := FirstComponents(results);
    var oldLabels := FirstComponents(lastResults);
    forall x ensures x in newLabels <==> HasFirst(results, x) {
      if x in newLabels {
        var i :| 0 <= i < |newLabels| && newLabels[i] == x;
      }
    }
    forall x ensures x in oldLabels <==> HasFirst(lastResults, x) {
      if x in oldLabels {
        var i :| 0 <= i < |oldLabels| && oldLabels[i] == x;
      }
    }
  }

  /** `do_training`: true when fewer than `topK` labels are shared by the
      current and the previous results. */
  function DoTraining<L(==), S>(results: seq<(L, S)>, lastResults: seq<(L, S)>, topK: int): (r: bool)
    ensures topK <= 0 ==> !r
  {
    |SharedLabels(results, lastResults)| < topK
  }

  /** A sequence names at most as many distinct values as it has entries. */
  lemma {:induction false} DistinctAtMostLength<L>(s: seq<L>)
    ensures |set l | l in s| <= |s|
    decreases |s|
  {
    if s != [] {
      DistinctAtMostLength(s[1..]);
      assert (set l | l in s) == {s[0]} + (set l | l in s[1..]);
    }
  }

  /** A subset is no larger than its superset. */
  lemma {:induction false} SubsetNoLarger<L>(a: set<L>, b: set<L>)
    requires a <= b
    ensures |a| <= |b|
    decreases |b|
  {
    if a != {} {
      var x :| x in a;
      SubsetNoLarger(a - {x}, b - {x});
    }
  }

  /** Fewer current results than `topK` always report a divergence, whatever
      the previous results. */
  lemma DoTrainingFewResults<L, S>(results: seq<(L, S)>, lastResults: seq<(L, S)>, topK: int)
    requires |results| < topK
    ensures DoTraining(results, lastResults, topK)
  {
    var newLabels := FirstComponents(results);
    DistinctAtMostLength(newLabels);
    var shared := SharedLabels(results, lastResults);
    assert shared <= set l | l in newLabels;
    SubsetNoLarger(shared, set l | l in newLabels);
  }

  /** The answer depends only on which labels occur in each list: two
      lists with the same labels (reordered, repeated, rescored) are
      interchangeable in either argument. */
  lemma DoTrainingDependsOnlyOnLabels<L, S>(a: seq<(L, S)>, a': seq<(L, S)>,
                                                b: seq<(L, S)>, b': seq<(L, S)>, topK: int)
    requires forall x :: HasFirst(a, x) <==> HasFirst(a', x)
    requires forall x :: HasFirst(b, x) <==> HasFirst(b', x)
    ensures DoTraining(a, b, topK) == DoTraining(a', b', topK)
  {
    SharedLabelsMeaning(a, b);
    SharedLabelsMeaning(a', b');
    assert SharedLabels(a, b) == SharedLabels(a', b');
  }

  /** Reordering or repeating entries: a list with the same entries gives the same answer. */
  lemma DoTrainingIgnoresOrderAndRepeats<L, S>(a: seq<(L, S)>, a': seq<(L, S)>,
                                                      b: seq<(L, S)>, topK: int)
    requires forall e :: e in a <==> e in a'
    ensures DoTraining(a, b, topK) == DoTraining(a', b, topK)
    ensures DoTraining(b, a, topK) == DoTraining(b, a', topK)
  {
    forall x ensures HasFirst(a, x) <==> HasFirst(a', x) {
      if HasFirst(a, x) {
        var i :| 0 <= i < |a| && a[i].0 == x;
        assert a[i] in a';
        var j :| 0 <= j < |a'| && a'[j] == a[i];
      }
      if HasFirst(a', x) {
        var i :| 0 <= i < |a'| && a'[i].0 == x;
        assert a'[i] in a;
        var j :| 0 <= j < |a| && a[j] == a'[i];
      }
    }
    DoTrainingDependsOnlyOnLabels(a, a', b, b, topK);
    DoTrainingDependsOnlyOnLabels(b, b, a, a', topK);
  }

  /** Changing scores, entry by entry, does not change the answer. */
  lemma DoTrainingIgnoresScores<L, S>(a: seq<(L, S)>, a': seq<(L, S)>,
                                          b: seq<(L, S)>, topK: int)
    requires |a| == |a'| && forall i :: 0 <= i < |a| ==> a[i].0 == a'[i].0
    ensures DoTraining(a, b, topK) == DoTraining(a', b, topK)
    ensures DoTraining(b, a, topK) == DoTraining(b, a', topK)
  {
    DoTrainingDependsOnlyOnLabels(a, a', b, b, topK);
    DoTrainingDependsOnlyOnLabels(b, b, a, a', topK);
  }

  /** "true if at least one label difference is detected": when neither list
      has more than `topK` entries (as `get_classes(..., top_k)` returns),
      a label found in one list and not in the other reports a divergence. */
  lemma DoTrainingDetectsDifference<L, S>(results: seq<(L, S)>, lastResults: seq<(L, S)>, topK: int, x: L)
    requires |results| <= topK && |lastResults| <= topK
    requires HasFirst(results, x) != HasFirst(lastResults, x)
    ensures DoTraining(results, lastResults, topK)
  {
    var newLabels := FirstComponents(results);
    var oldLabels := FirstComponents(lastResults);
    var newSet := set l | l in newLabels;
    var oldSet := set l | l in oldLabels;
    var shared := SharedLabels(results, lastResults);
    SharedLabelsMeaning(results, lastResults);
    DistinctAtMostLength(newLabels);
    DistinctAtMostLength(oldLabels);
    assert x !in shared;
    if HasFirst(results, x) {
      var i :| 0 <= i < |results| && results[i].0 == x;
      assert newLabels[i] == x;
      assert shared <= newSet - {x};
      SubsetNoLarger(shared, newSet - {x});
      assert |newSet - {x}| == |newSet| - 1;
    } else {
      var i :| 0 <= i < |lastResults| && lastResults[i].0 == x;
      assert oldLabels[i] == x;
      assert shared <= oldSet - {x};
      SubsetNoLarger(shared, oldSet - {x});
      assert |oldSet - {x}| == |oldSet| - 1;
    }
  }

  /** Comparing results with themselves never diverges once they name at
      least `topK` distinct labels. */
  lemma DoTrainingSelf<L, S>(xs: seq<(L, S)>, topK: int)
    requires |set l | l in FirstComponents(xs)| >= topK
    ensures !DoTraining(xs, xs, topK)
  {
    var labels := FirstComponents(xs);
    assert (set l | l in labels) * (set l | l in labels) == set l | l in labels;
  }

  /** Nothing is shared with an empty previous result, so any positive
      `topK` reports a divergence. */
  lemma DoTrainingEmptyLast<L, S>(xs: seq<(L, S)>, topK: int)
    requires topK >= 1
    ensures DoTraining(xs, [], topK)
  {
    assert SharedLabels(xs, []) == {};
  }

  /** Three previous labels, two current ones, one in common: with
      `topK` 3 the results have diverged. */
  lemma DoTrainingExample()
    ensures DoTraining([("cat", 0.7), ("fox", 0.2)],
                       [("cat", 0.6), ("dog", 0.2), ("bird", 0.1)], 3)
  {
    var cur: seq<(string, real)> := [("cat", 0.7), ("fox", 0.2)];
    var prev: seq<(string, real)> := [("cat", 0.6), ("dog", 0.2), ("bird", 0.1)];
    SharedLabelsMeaning(cur, prev);
    assert cur[0].0 == "cat" && prev[0].0 == "cat";
    forall x | x in SharedLabels(cur, prev) ensures x == "cat" {
      assert HasFirst(cur, x) && HasFirst(prev, x);
      var i :| 0 <= i < |cur| && cur[i].0 == x;
      var j :| 0 <= j < |prev| && prev[j].0 == x;
    }
    assert SharedLabels(cur, prev) == {"cat"};
  }

  // ------------------------------------------------- the per-frame decision

  /** What one pass of the callback's loop decides: nothing, a deterrence
      on the first matching label, or a `KeyError` for an id missing
      from the label table (which ends the callback). */
  datatype Decision = NoAction | Deter(matched: string) | MissingLabel(id: int)

  /** The loop over the results, as a function: entries are looked up in
      order until one is missing from the table or its label is a
      deterrent label. */
  function Decide(results: seq<Class>, labels: map<int, string>, deter: seq<string>): (r: Decision)
    ensures r.Deter? ==> r.matched in deter
    ensures r.MissingLabel? ==> r.id !in labels && results != []
    decreases |results|
  {
    if results == [] then NoAction
    else if results[0].id !in labels then MissingLabel(results[0].id)
    else if labels[results[0].id] in deter then Deter(labels[results[0].id])
    else Decide(results[1..], labels, deter)
  }

  /** The first `i` entries were looked up and none of them matched. */
  predicate Passed(results: seq<Class>, labels: map<int, string>, deter: seq<string>, i: int) {
    forall j :: 0 <= j < i && j < |results| ==> results[j].id in labels && labels[results[j].id] !in deter
  }

  lemma PassedShift(results: seq<Class>, labels: map<int, string>, deter: seq<string>, i: nat)
    requires |results| > 0 && i < |results|
    ensures Passed(results, labels, deter, i + 1) <==>
            results[0].id in labels && labels[results[0].id] !in deter && Passed(results[1..], labels, deter, i)
  {
    if Passed(results, labels, deter, i + 1) {
      forall j | 0 <= j < i && j < |results[1..]|
        ensures results[1..][j].id in labels && labels[results[1..][j].id] !in deter
      {
        assert results[1..][j] == results[j + 1];
      }
    }
    if results[0].id in labels && labels[results[0].id] !in deter && Passed(results[1..], labels, deter, i) {
      forall j | 0 <= j < i + 1 && j < |results|
        ensures results[j].id in labels && labels[results[j].id] !in deter
      {
        if j > 0 { assert results[j] == results[1..][j - 1]; }
      }
    }
  }

  /** Entry `i` is looked up, its label `l` is a deterrent label, and every
      entry before it was looked up without matching. */
  predicate MatchAt(results: seq<Class>, labels: map<int, string>, deter: seq<string>, i: int, l: string) {
    0 <= i < |results| && Passed(results, labels, deter, i) &&
    results[i].id in labels && labels[results[i].id] == l && l in deter
  }

  /** Entry `i` has an id missing from the table and every entry before it
      was looked up without matching. */
  predicate MissingAt(results: seq<Class>, labels: map<int, string>, deter: seq<string>, i: int, id: int) {
    0 <= i < |results| && Passed(results, labels, deter, i) &&
    results[i].id == id && id !in labels
  }

  lemma StopShift(results: seq<Class>, labels: map<int, string>, deter: seq<string>, k: nat, l: string, id: int)
    requires |results| > 0 && results[0].id in labels && labels[results[0].id] !in deter
    ensures !MatchAt(results, labels, deter, 0, l) && !MissingAt(results, labels, deter, 0, id)
    ensures MatchAt(results, labels, deter, k + 1, l) <==> MatchAt(results[1..], labels, deter, k, l)
    ensures MissingAt(results, labels, deter, k + 1, id) <==> MissingAt(results[1..], labels, deter, k, id)
  {
    if k + 1 < |results| {
      PassedShift(results, labels, deter, k);
      assert results[1..][k] == results[k + 1];
    }
  }

  /** No action exactly when every entry was looked up and none matched. */
  lemma {:induction false} DecideNoAction(results: seq<Class>, labels: map<int, string>, deter: seq<string>)
    ensures Decide(results, labels, deter) == NoAction <==> Passed(results, labels, deter, |results|)
    decreases |results|
  {
    if results != [] {
      DecideNoAction(results[1..], labels, deter);
      PassedShift(results, labels, deter, |results| - 1);
    }
  }

  /** A deterrence on label `l` exactly when the first entry that stops the
      loop is a match with label `l`. */
  lemma {:induction false} DecideDeter(results: seq<Class>, labels: map<int, string>, deter: seq<string>, l: string)
    ensures Decide(results, labels, deter) == Deter(l) <==> exists i :: MatchAt(results, labels, deter, i, l)
    decreases |results|
  {
    if results != [] {
      var r0 := results[0];
      if r0.id !in labels {
        forall i ensures !MatchAt(results, labels, deter, i, l) {
          if 0 < i < |results| { assert !Passed(results, labels, deter, i); }
        }
      } else if labels[r0.id] in deter {
        assert Passed(results, labels, deter, 0);
        if r0.id in labels && labels[r0.id] == l {
          assert MatchAt(results, labels, deter, 0, l);
        }
        forall i | MatchAt(results, labels, deter, i, l) ensures labels[r0.id] == l {
          if i > 0 { assert !Passed(results, labels, deter, i); }
        }
      } else {
        DecideDeter(results[1..], labels, deter, l);
        if exists k :: MatchAt(results[1..], labels, deter, k, l) {
          var k :| MatchAt(results[1..], labels, deter, k, l);
          StopShift(results, labels, deter, k, l, 0);
        }
        if exists i :: MatchAt(results, labels, deter, i, l) {
          var i :| MatchAt(results, labels, deter, i, l);
          StopShift(results, labels, deter, 0, l, 0);
          StopShift(results, labels, deter, i - 1, l, 0);
        }
      }
    }
  }

  /** A missing-label error for `id` exactly when the first entry that
      stops the loop has the id `id`, absent from the table. */
  lemma {:induction false} DecideMissing(results: seq<Class>, labels: map<int, string>, deter: seq<string>, id: int)
    ensures Decide(results, labels, deter) == MissingLabel(id) <==> exists i :: MissingAt(results, labels, deter, i, id)
    decreases |results|
  {
    if results != [] {
      var r0 := results[0];
      if r0.id !in labels {
        assert Passed(results, labels, deter, 0);
        if r0.id == id {
          assert MissingAt(results, labels, deter, 0, id);
        }
        forall i | MissingAt(results, labels, deter, i, id) ensures r0.id == id {
          if i > 0 { assert !Passed(results, labels, deter, i); }
        }
      } else if labels[r0.id] in deter {
        forall i ensures !MissingAt(results, labels, deter, i, id) {
          if 0 < i < |results| { assert !Passed(results, labels, deter, i); }
        }
      } else {
        DecideMissing(results[1..], labels, deter, id);
        if exists k :: MissingAt(results[1..], labels, deter, k, id) {
          var k :| MissingAt(results[1..], labels, deter, k, id);
          StopShift(results, labels, deter, k, "", id);
        }
        if exists i :: MissingAt(results, labels, deter, i, id) {
          var i :| MissingAt(results, labels, deter, i, id);
          StopShift(results, labels, deter, 0, "", id);
          StopShift(results, labels, deter, i - 1, "", id);
        }
      }
    }
  }

  /** When every id is in the label table, the frame is a deterrence event
      exactly when some entry's label is an exact member of the deterrent
      labels; no entry, no event. */
  lemma DeterIffSomeLabelMatches(results: seq<Class>, labels: map<int, string>, deter: seq<string>)
    requires forall i :: 0 <= i < |results| ==> results[i].id in labels
    ensures Decide(results, labels, deter).Deter? <==>
      exists i :: 0 <= i < |results| && labels[results[i].id] in deter
    ensures results == [] ==> Decide(results, labels, deter) == NoAction
  {
    DecideNoAction(results, labels, deter);
    forall id ensures Decide(results, labels, deter) != MissingLabel(id) {
      DecideMissing(results, labels, deter, id);
    }
    if exists i :: 0 <= i < |results| && labels[results[i].id] in deter {
      var i :| 0 <= i < |results| && labels[results[i].id] in deter;
      FirstMatch(results, labels, deter, i);
    } else {
      assert Passed(results, labels, deter, |results|);
    }
  }

  /** Given a matching entry at `i`, there is a first matching entry. */
  lemma {:induction false} FirstMatch(results: seq<Class>, labels: map<int, string>, deter: seq<string>, i: nat)
    requires forall j :: 0 <= j < |results| ==> results[j].id in labels
    requires i < |results| && labels[results[i].id] in deter
    ensures exists k :: 0 <= k <= i && Passed(results, labels, deter, k) && labels[results[k].id] in deter
    decreases i
  {
    if !Passed(results, labels, deter, i) {
      var j :| 0 <= j < i && !(results[j].id in labels && labels[results[j].id] !in deter);
      FirstMatch(results, labels, deter, j);
    }
  }

  /** Matching is exact and case-sensitive: "Cat" is not "cat". */
  lemma CaseSensitiveMatch()
    ensures Decide([Class(5, 0.92)], map[5 := "Cat"], DETER_LABELS) == NoAction
  {
    assert "Cat" != DETER_LABELS[3];
  }

  // --------------------------------------------------- the callback's trace

  /** The side effects the callback issues. */
  datatype Effect =
    | PlaySound(sound: string)
    | SaveFrame(image: Frame, results: seq<Class>, storage: string)

  /** The loop in the frame callback: walk the results, and on the first
      entry whose label is a deterrent label play the sound, save the frame
      with the whole result list, and stop. A missing id ends the callback
      (the `KeyError`) before any effect. */
  method UserCallback(image: Frame, results: seq<Class>, labels: map<int, string>,
                      sound: string, storage: string)
    returns (trace: seq<Effect>, decision: Decision)
    ensures decision == Decide(results, labels, DETER_LABELS)
    ensures decision.Deter? ==> trace == [PlaySound(sound), SaveFrame(image, results, storage)]
    ensures !decision.Deter? ==> trace == []
  {
    trace := [];
    decision := NoAction;
    var i := 0;
    while i < |results|
      invariant 0 <= i <= |results|
      invariant trace == [] && decision == NoAction
      invariant Decide(results, labels, DETER_LABELS) == Decide(results[i..], labels, DETER_LABELS)
    {
      var result := results[i];
      if result.id !in labels {
        decision := MissingLabel(result.id);
        return;
      }
      if labels[result.id] in DETER_LABELS {
        trace := trace + [PlaySound(sound)];
        trace := trace + [SaveFrame(image, results, storage)];
        decision := Deter(labels[result.id]);
        break;
      }
      assert results[i..][1..] == results[i + 1..];
      i := i + 1;
    }
  }

  /** A cat at 0.92 sounds the deterrent and saves the frame with the full
      results; a sparrow does nothing. */
  method CallbackScenarios(image: Frame, sound: string, storage: string)
  {
    var labels := map[7 := "cat", 8 := "sparrow"];
    var cat := [Class(7, 0.92)];
    var trace, d := UserCallback(image, cat, labels, sound, storage);
    assert d == Deter("cat");
    assert trace == [PlaySound(sound), SaveFrame(image, cat, storage)];
    var sparrow := [Class(8, 0.81)];
    trace, d := UserCallback(image, sparrow, labels, sound, storage);
    assert "sparrow" !in DETER_LABELS;
    assert d == NoAction && trace == [];
  }

  // ---------------------------------------------------------------- save_data

  /** Width of the timestamp tag. */
  const TAG_WIDTH: nat := 10

  /** `'%010d' % millis`. */
  function Tag(millis: int): (t: string)
    ensures |t| >= TAG_WIDTH
  {
    FormatZeroPadded(millis, TAG_WIDTH)
  }

  /** The image file name, `'%s/img-%s.%s' % (path, tag, ext)`. */
  function ImageName(path: string, tag: string, ext: string): (name: string)
    ensures StartsWith(name, path + "/img-") && EndsWith(name, "." + ext)
    ensures |name| == |path| + |tag| + |ext| + 6
  {
    var name := path + "/img-" + tag + "." + ext;
    assert name == (path + "/img-") + (tag + "." + ext);
    assert name == (path + "/img-" + tag) + ("." + ext);
    name
  }

  /** The results file name, `'%s/img-%s.json' % (path, tag)`. */
  function ResultsName(path: string, tag: string): (name: string)
    ensures StartsWith(name, path + "/img-") && EndsWith(name, ".json")
    ensures |name| == |path| + |tag| + 10
  {
    var name := path + "/img-" + tag + ".json";
    assert name == (path + "/img-") + (tag + ".json");
    name
  }

  /** `json.dump` of the result list: each entry becomes `[id, score]`. */
  function EncodeResults(results: seq<Class>): (v: Json)
    ensures v.JArr? && |v.items| == |results|
  {
    JArr(seq(|results|, i requires 0 <= i < |results| =>
      JArr([JNum(results[i].id as real), JNum(results[i].score)])))
  }

  function DecodeClass(v: Json): (c: Option<Class>) {
    match v
    case JArr(pair) =>
      if |pair| == 2 && pair[0].JNum? && pair[1].JNum? && pair[0].n.Floor as real == pair[0].n
      then Some(Class(pair[0].n.Floor, pair[1].n))
      else None
    case _ => None
  }

  function DecodeEntries(items: seq<Json>): (cs: Option<seq<Class>>)
    decreases |items|
  {
    if items == [] then Some([])
    else match (DecodeClass(items[0]), DecodeEntries(items[1..]))
      case (Some(c), Some(cs)) => Some([c] + cs)
      case _ => None
  }

  /** Reading a results file back into a result list. */
  function DecodeResults(v: Json): (cs: Option<seq<Class>>) {
    match v
    case JArr(items) => DecodeEntries(items)
    case _ => None
  }

  /** A stored result list reads back as exactly the list that was saved. */
  lemma {:induction false} ResultsRoundTrip(results: seq<Class>)
    ensures DecodeResults(EncodeResults(results)) == Some(results)
  {
    EntriesRoundTrip(results);
  }

  lemma {:induction false} EntriesRoundTrip(results: seq<Class>)
    ensures DecodeEntries(EncodeResults(results).items) == Some(results)
    decreases |results|
  {
    if results != [] {
      EntriesRoundTrip(results[1..]);
      var items := EncodeResults(results).items;
      assert items[1..] == EncodeResults(results[1..]).items;
      assert (results[0].id as real).Floor == results[0].id;
      assert DecodeClass(items[0]) == Some(results[0]);
      assert [results[0]] + results[1..] == results;
    }
  }

  /** The content of one file of the store. */
  datatype Content = ImageFile(frame: Frame, format: string) | JsonFile(value: Json)

  /** The store after `save_data`: the image under its name (saved in the
      format its extension names), then the results under theirs. */
  function Saved(files: map<string, Content>, image: Frame, results: seq<Class>,
                 path: string, ext: string, millis: int): (after: map<string, Content>)
    ensures after.Keys == files.Keys + {ImageName(path, Tag(millis), ext), ResultsName(path, Tag(millis))}
    ensures after[ResultsName(path, Tag(millis))] == JsonFile(EncodeResults(results))
  {
    var tag := Tag(millis);
    files[ImageName(path, tag, ext) := ImageFile(image, ext)]
         [ResultsName(path, tag) := JsonFile(EncodeResults(results))]
  }

  /** The image and the results names coincide exactly when `ext` is "json". */
  lemma NamesCoincideIff(path: string, tag: string, ext: string)
    ensures ImageName(path, tag, ext) == ResultsName(path, tag) <==> ext == "json"
  {
    var pre := path + "/img-" + tag + ".";
    assert ImageName(path, tag, ext) == pre + ext;
    assert ResultsName(path, tag) == pre + "json";
    if pre + ext == pre + "json" {
      assert ext == (pre + ext)[|pre|..];
    }
  }

  /** With an extension other than "json", saving adds exactly two entries,
      the image and its results, and leaves every other entry unchanged. */
  lemma SaveAddsImageAndResults(files: map<string, Content>, image: Frame, results: seq<Class>,
                                path: string, ext: string, millis: int)
    requires ext != "json"
    ensures var tag := Tag(millis);
      var after := Saved(files, image, results, path, ext, millis);
      && ImageName(path, tag, ext) != ResultsName(path, tag)
      && after.Keys == files.Keys + {ImageName(path, tag, ext), ResultsName(path, tag)}
      && after[ImageName(path, tag, ext)] == ImageFile(image, ext)
      && after[ResultsName(path, tag)] == JsonFile(EncodeResults(results))
      && forall k :: k in files && k != ImageName(path, tag, ext) && k != ResultsName(path, tag)
           ==> after[k] == files[k]
  {
    NamesCoincideIff(path, Tag(millis), ext);
  }

  /** With extension "json" both writes go to one file: the results
      overwrite the image. */
  lemma SaveWithJsonExtension(files: map<string, Content>, image: Frame, results: seq<Class>,
                              path: string, millis: int)
    ensures var name := ResultsName(path, Tag(millis));
      var after := Saved(files, image, results, path, "json", millis);
      && after.Keys == files.Keys + {name}
      && after[name] == JsonFile(EncodeResults(results))
  {
    NamesCoincideIff(path, Tag(millis), "json");
  }

  /** The tag of a non-negative timestamp is all digits, at least ten of
      them, exactly ten below 10^10, and reads back as the timestamp;
      every tag, negative ones included, reads back as its timestamp. */
  lemma TagShape(millis: int)
    ensures var t := Tag(millis);
      && ((|t| > 0 && t[0] == '-' && AllDigits(t[1..])) || AllDigits(t))
      && ParseSigned(t) == millis
      && '.' !in t && '/' !in t
      && (millis >= 0 ==> AllDigits(t) && |t| >= 10)
      && (0 <= millis < Pow10(10) ==> |t| == 10)
  {
    FormatZeroPaddedRoundTrip(millis, TAG_WIDTH);
    FormatZeroPaddedChars(millis, TAG_WIDTH);
    if millis >= 0 {
      FormatZeroPaddedShape(millis, TAG_WIDTH);
    }
  }

  /** A file name determines the tag inside it. */
  lemma NamesDetermineTag(path: string, ext: string, t1: string, t2: string)
    ensures ResultsName(path, t1) == ResultsName(path, t2) ==> t1 == t2
    ensures ImageName(path, t1, ext) == ImageName(path, t2, ext) ==> t1 == t2
  {
    var pre := path + "/img-";
    assert ResultsName(path, t1)[|pre|..|pre| + |t1|] == t1;
    assert ResultsName(path, t2)[|pre|..|pre| + |t2|] == t2;
    assert ImageName(path, t1, ext)[|pre|..|pre| + |t1|] == t1;
    assert ImageName(path, t2, ext)[|pre|..|pre| + |t2|] == t2;
  }

  /** Different timestamps give different file names. */
  lemma DistinctTimestampsDistinctNames(path: string, ext: string, m1: int, m2: int)
    requires m1 != m2
    ensures ResultsName(path, Tag(m1)) != ResultsName(path, Tag(m2))
    ensures ImageName(path, Tag(m1), ext) != ImageName(path, Tag(m2), ext)
  {
    TagShape(m1);
    TagShape(m2);
    NamesDetermineTag(path, ext, Tag(m1), Tag(m2));
  }

  /** The result store, a map from file name to content, that `save_data`
      writes into. */
  class Store {
    var files: map<string, Content>

    constructor (initial: map<string, Content>)
      ensures files == initial
    {
      files := initial;
    }

    /** `save_data`: the timestamp (in milliseconds) is a parameter; the
        image is written first, then the results. */
    method SaveData(image: Frame, results: seq<Class>, path: string, ext: string, millis: int)
      modifies this
      ensures files == Saved(old(files), image, results, path, ext, millis)
    {
      var tag := Tag(millis);
      var name := ImageName(path, tag, ext);
      files := files[name := ImageFile(image, ext)];
      var resultsName := ResultsName(path, tag);
      files := files[resultsName := JsonFile(EncodeResults(results))];
    }
  }
}
