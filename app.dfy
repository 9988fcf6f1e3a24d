/** The viewer's two listing pages (app.py): `index`, which pairs every
    `.png` with its `.json` sidecar, and `review_deter_triggers`, which
    keeps the `.json` files whose loaded results contain "deter". The
    directory is a listing (a sequence of names) plus the store, a map from
    full path to file content; a Python exception becomes a `Failure`. */
module App {
  import opened Wrappers
  import opened Strings
  import opened Json
  import opened BirdClassify

  /** The directory the viewer reads. */
  const STORAGE_PATH: string := "path/to/storage"

  /** Why a page fails: `open` of a missing file, `json.load` of a file
      that is not JSON, or `'deter' in results` on a value that is not a
      container. */
  datatype Error = FileNotFound(path: string) | InvalidJson(path: string) | NotContainer(path: string)

  /** One row of a page: `{'image': ..., 'results': ...}`. */
  datatype Visit = Visit(image: string, results: Json)

  /** `json.load(open(path))`. */
  function Load(fs: map<string, Content>, path: string): (r: Result<Json, Error>)
    ensures r.Success? <==> path in fs && fs[path].JsonFile?
    ensures r.Success? ==> fs[path] == JsonFile(r.value)
    ensures r.Failure? ==> r.error == if path in fs then InvalidJson(path) else FileNotFound(path)
  {
    if path !in fs then Failure(FileNotFound(path))
    else match fs[path]
      case JsonFile(v) => Success(v)
      case ImageFile(_, _) => Failure(InvalidJson(path))
  }

  /** `filename.replace('.png', '.json')`: the sidecar `index` looks for. */
  function Sidecar(name: string): (sidecar: string) {
    ReplaceAll(name, ".png", ".json")
  }

  /** `filename.replace('.json', '.png')`: the image a trigger reports. */
  function ImageOf(name: string): (image: string) {
    ReplaceAll(name, ".json", ".png")
  }

  /** Rows already collected, followed by what the rest of the loop yields. */
  function Prepend(rows: seq<Visit>, rest: Result<seq<Visit>, Error>): (r: Result<seq<Visit>, Error>) {
    match rest
    case Success(more) => Success(rows + more)
    case Failure(e) => Failure(e)
  }

  lemma PrependAppend(rows: seq<Visit>, row: Visit, rest: Result<seq<Visit>, Error>)
    ensures Prepend(rows, Prepend([row], rest)) == Prepend(rows + [row], rest)
  {
    if rest.Success? {
      assert rows + ([row] + rest.value) == (rows + [row]) + rest.value;
    }
  }

  lemma PrependNothing(rest: Result<seq<Visit>, Error>)
    ensures Prepend([], rest) == rest
  {
    if rest.Success? {
      assert [] + rest.value == rest.value;
    }
  }

  /** `listing` is what `os.listdir(dir)` can return for the store `fs`:
      it names every file directly inside `dir`. */
  ghost predicate ListsDirectory(fs: map<string, Content>, dir: string, listing: seq<string>) {
    forall name :: |name| > 0 && '/' !in name && Join(dir, name) in fs ==> name in listing
  }

  // ------------------------------------------------------------------ index

  /** A `.png` name whose sidecar exists in the directory. */
  predicate IsPairedPng(fs: map<string, Content>, dir: string, name: string) {
    EndsWith(name, ".png") && Join(dir, Sidecar(name)) in fs
  }

  /** What `index` yields for a listing: a row per paired `.png`, in
      listing order, or the error of the first sidecar that does not load. */
  function IndexSpec(fs: map<string, Content>, dir: string, listing: seq<string>): (r: Result<seq<Visit>, Error>)
    ensures r.Success? ==> |r.value| <= |listing|
    ensures r.Failure? ==> r.error.InvalidJson?
    decreases |listing|
  {
    if listing == [] then Success([])
    else if !IsPairedPng(fs, dir, listing[0]) then IndexSpec(fs, dir, listing[1..])
    else match Load(fs, Join(dir, Sidecar(listing[0])))
      case Failure(e) => Failure(e)
      case Success(v) => Prepend([Visit(listing[0], v)], IndexSpec(fs, dir, listing[1..]))
  }

  /** The paired `.png` names of a listing, in listing order. */
  function PairedPngs(fs: map<string, Content>, dir: string, listing: seq<string>): (names: seq<string>)
    decreases |listing|
  {
    if listing == [] then []
    else if IsPairedPng(fs, dir, listing[0]) then [listing[0]] + PairedPngs(fs, dir, listing[1..])
    else PairedPngs(fs, dir, listing[1..])
  }

  /** A name is kept exactly when it is listed and paired; never more names
      than listed. */
  lemma {:induction false} PairedPngsMembers(fs: map<string, Content>, dir: string, listing: seq<string>)
    ensures |PairedPngs(fs, dir, listing)| <= |listing|
    ensures forall n :: n in PairedPngs(fs, dir, listing) <==> n in listing && IsPairedPng(fs, dir, n)
    decreases |listing|
  {
    if listing != [] {
      PairedPngsMembers(fs, dir, listing[1..]);
      assert forall n :: n in listing <==> n == listing[0] || n in listing[1..];
    }
  }

  /** A listed name that does not stop `index`: it is not a paired `.png`,
      or its sidecar holds JSON. */
  predicate SidecarLoads(fs: map<string, Content>, dir: string, name: string) {
    IsPairedPng(fs, dir, name) ==> fs[Join(dir, Sidecar(name))].JsonFile?
  }

  /** `row` shows the paired `.png` `name` with exactly the JSON stored in
      its sidecar. */
  predicate ShowsPair(fs: map<string, Content>, dir: string, name: string, row: Visit) {
    row.image == name && Join(dir, Sidecar(name)) in fs &&
    fs[Join(dir, Sidecar(name))] == JsonFile(row.results)
  }

  /** The row `index` adds for a paired `.png` whose sidecar holds JSON. */
  function PairRow(fs: map<string, Content>, dir: string, name: string): (row: Visit)
    requires IsPairedPng(fs, dir, name) && SidecarLoads(fs, dir, name)
  {
    Visit(name, fs[Join(dir, Sidecar(name))].value)
  }

  /** One step of `IndexSpec`: the head name either stops the page, adds its
      row, or is skipped. */
  lemma IndexStep(fs: map<string, Content>, dir: string, listing: seq<string>)
    requires listing != []
    ensures !SidecarLoads(fs, dir, listing[0]) ==> IndexSpec(fs, dir, listing).Failure?
    ensures SidecarLoads(fs, dir, listing[0]) && IsPairedPng(fs, dir, listing[0]) ==>
      && ShowsPair(fs, dir, listing[0], PairRow(fs, dir, listing[0]))
      && IndexSpec(fs, dir, listing) == Prepend([PairRow(fs, dir, listing[0])], IndexSpec(fs, dir, listing[1..]))
      && (IndexSpec(fs, dir, listing).Success? ==>
            IndexSpec(fs, dir, listing[1..]).Success? &&
            IndexSpec(fs, dir, listing).value == [PairRow(fs, dir, listing[0])] + IndexSpec(fs, dir, listing[1..]).value)
    ensures !IsPairedPng(fs, dir, listing[0]) ==>
      IndexSpec(fs, dir, listing) == IndexSpec(fs, dir, listing[1..])
  {
  }

  /** Pairs related position by position stay so with one more pair in
      front. */
  lemma RelatedCons<A, B>(p: (A, B) -> bool, a: A, b: B, xs: seq<A>, ys: seq<B>)
    requires p(a, b) && |xs| == |ys|
    requires forall k :: 0 <= k < |ys| ==> p(xs[k], ys[k])
    ensures forall k :: 0 <= k < |ys| + 1 ==> p(([a] + xs)[k], ([b] + ys)[k])
  {
    forall k | 0 < k < |ys| + 1
      ensures p(([a] + xs)[k], ([b] + ys)[k])
    {
      assert ([a] + xs)[k] == xs[k - 1] && ([b] + ys)[k] == ys[k - 1];
    }
  }

  /** One step of `PairedPngs`. */
  lemma PairedPngsStep(fs: map<string, Content>, dir: string, listing: seq<string>)
    requires listing != []
    ensures PairedPngs(fs, dir, listing) ==
      if IsPairedPng(fs, dir, listing[0]) then [listing[0]] + PairedPngs(fs, dir, listing[1..])
      else PairedPngs(fs, dir, listing[1..])
  {
  }

  /** No name occurs twice, as in what `os.listdir` returns. */
  predicate Distinct(names: seq<string>) {
    forall i, j :: 0 <= i < j < |names| ==> names[i] != names[j]
  }

  /** The tail of a sequence without repeats has none either, and does
      not hold the head. */
  lemma DistinctTail(xs: seq<string>)
    requires xs != [] && Distinct(xs)
    ensures Distinct(xs[1..]) && xs[0] !in xs[1..]
  {
    var rest := xs[1..];
    forall i, j | 0 <= i < j < |rest| ensures rest[i] != rest[j] {
      assert rest[i] == xs[i + 1] && rest[j] == xs[j + 1];
    }
    forall j | 0 <= j < |rest| ensures rest[j] != xs[0] {
      assert rest[j] == xs[j + 1];
    }
  }

  /** A new name in front of a sequence without repeats keeps it so. */
  lemma DistinctCons(x: string, ys: seq<string>)
    requires Distinct(ys) && x !in ys
    ensures Distinct([x] + ys)
  {
    var zs := [x] + ys;
    forall i, j | 0 <= i < j < |zs| ensures zs[i] != zs[j] {
      assert zs[j] == ys[j - 1];
      if i > 0 {
        assert zs[i] == ys[i - 1];
      }
    }
  }

  /** A listing without repeats keeps no paired name twice. */
  lemma {:induction false} PairedPngsDistinct(fs: map<string, Content>, dir: string, listing: seq<string>)
    requires Distinct(listing)
    ensures Distinct(PairedPngs(fs, dir, listing))
    decreases |listing|
  {
    if listing != [] {
      var rest := listing[1..];
      DistinctTail(listing);
      PairedPngsStep(fs, dir, listing);
      PairedPngsDistinct(fs, dir, rest);
      PairedPngsMembers(fs, dir, rest);
      if IsPairedPng(fs, dir, listing[0]) {
        DistinctCons(listing[0], PairedPngs(fs, dir, rest));
      }
    }
  }

  /** With a listing that repeats no name, no two rows of a rendered
      `index` page show the same image. */
  lemma IndexRowsDistinct(fs: map<string, Content>, dir: string, listing: seq<string>)
    requires Distinct(listing) && IndexSpec(fs, dir, listing).Success?
    ensures var vs := IndexSpec(fs, dir, listing).value;
      forall k, k' :: 0 <= k < k' < |vs| ==> vs[k].image != vs[k'].image
  {
    IndexVisits(fs, dir, listing);
    PairedPngsDistinct(fs, dir, listing);
    var vs := IndexSpec(fs, dir, listing).value;
    var names := PairedPngs(fs, dir, listing);
    forall k, k' | 0 <= k < k' < |vs| ensures vs[k].image != vs[k'].image {
      assert ShowsPair(fs, dir, names[k], vs[k]) && ShowsPair(fs, dir, names[k'], vs[k']);
    }
  }

  /** `index` succeeds exactly when every paired sidecar holds JSON. */
  lemma {:induction false} IndexSucceedsIff(fs: map<string, Content>, dir: string, listing: seq<string>)
    ensures IndexSpec(fs, dir, listing).Success? <==>
      forall i :: 0 <= i < |listing| ==> SidecarLoads(fs, dir, listing[i])
    decreases |listing|
  {
    if listing != [] {
      IndexStep(fs, dir, listing);
      IndexSucceedsIff(fs, dir, listing[1..]);
      forall i | 0 < i < |listing| ensures listing[i] == listing[1..][i - 1] { }
    }
  }

  /** On success the rows are, in order, the paired `.png` names of the
      listing, each with exactly the JSON stored in its sidecar. */
  lemma {:induction false} IndexVisits(fs: map<string, Content>, dir: string, listing: seq<string>)
    requires IndexSpec(fs, dir, listing).Success?
    ensures var vs := IndexSpec(fs, dir, listing).value;
      var names := PairedPngs(fs, dir, listing);
      && |vs| == |names|
      && forall k :: 0 <= k < |vs| ==> ShowsPair(fs, dir, names[k], vs[k])
    decreases |listing|
  {
    if listing != [] {
      var rest := listing[1..];
      IndexStep(fs, dir, listing);
      PairedPngsStep(fs, dir, listing);
      IndexVisits(fs, dir, rest);
      if IsPairedPng(fs, dir, listing[0]) {
        RelatedCons((n, v) => ShowsPair(fs, dir, n, v), listing[0], PairRow(fs, dir, listing[0]),
                    PairedPngs(fs, dir, rest), IndexSpec(fs, dir, rest).value);
      }
    }
  }

  /** On failure the error names a sidecar of a listed `.png` that exists
      but does not hold JSON. */
  lemma {:induction false} IndexFailure(fs: map<string, Content>, dir: string, listing: seq<string>)
    requires IndexSpec(fs, dir, listing).Failure?
    ensures var e := IndexSpec(fs, dir, listing).error;
      && e.InvalidJson? && e.path in fs && fs[e.path].ImageFile?
      && exists i :: 0 <= i < |listing| && IsPairedPng(fs, dir, listing[i]) &&
           e.path == Join(dir, Sidecar(listing[i]))
    decreases |listing|
  {
    var rest := listing[1..];
    var e := IndexSpec(fs, dir, listing).error;
    if IsPairedPng(fs, dir, listing[0]) && Load(fs, Join(dir, Sidecar(listing[0]))).Failure? {
      assert e == Load(fs, Join(dir, Sidecar(listing[0]))).error;
    } else {
      assert IndexSpec(fs, dir, rest).Failure? && IndexSpec(fs, dir, rest).error == e;
      IndexFailure(fs, dir, rest);
      var i :| 0 <= i < |rest| && IsPairedPng(fs, dir, rest[i]) && e.path == Join(dir, Sidecar(rest[i]));
      assert rest[i] == listing[i + 1];
    }
  }

  /** The `index` page: walk the listing, keep each `.png` whose sidecar
      exists, load that sidecar and append a row. */
  method Index(fs: map<string, Content>, listing: seq<string>) returns (r: Result<seq<Visit>, Error>)
    ensures r == IndexSpec(fs, STORAGE_PATH, listing)
  {
    var visits: seq<Visit> := [];
    var i := 0;
    PrependNothing(IndexSpec(fs, STORAGE_PATH, listing));
    assert listing[0..] == listing;
    while i < |listing|
      invariant 0 <= i <= |listing|
      invariant IndexSpec(fs, STORAGE_PATH, listing) == Prepend(visits, IndexSpec(fs, STORAGE_PATH, listing[i..]))
    {
      var filename := listing[i];
      assert listing[i..][1..] == listing[i + 1..] && listing[i..][0] == filename;
      IndexStep(fs, STORAGE_PATH, listing[i..]);
      if EndsWith(filename, ".png") {
        var resultFile := ReplaceAll(filename, ".png", ".json");
        if Join(STORAGE_PATH, resultFile) in fs {
          var loaded := Load(fs, Join(STORAGE_PATH, resultFile));
          if loaded.Failure? {
            return Failure(loaded.error);
          }
          PrependAppend(visits, Visit(filename, loaded.value), IndexSpec(fs, STORAGE_PATH, listing[i + 1..]));
          visits := visits + [Visit(filename, loaded.value)];
        }
      }
      i := i + 1;
    }
    assert visits + [] == visits;
    return Success(visits);
  }

  // -------------------------------------------------- review_deter_triggers

  /** A listed `.json` file whose content loads and contains "deter". */
  predicate IsDeterFile(fs: map<string, Content>, dir: string, name: string) {
    && EndsWith(name, ".json")
    && Load(fs, Join(dir, name)).Success?
    && Contains("deter", Load(fs, Join(dir, name)).value) == Some(true)
  }

  /** What `review_deter_triggers` yields for a listing: a row per `.json`
      file whose results contain "deter", reported under the `.png` name,
      in listing order; or the first error met. */
  function TriggersSpec(fs: map<string, Content>, dir: string, listing: seq<string>): (r: Result<seq<Visit>, Error>)
    ensures r.Success? ==> |r.value| <= |listing|
    decreases |listing|
  {
    if listing == [] then Success([])
    else if !EndsWith(listing[0], ".json") then TriggersSpec(fs, dir, listing[1..])
    else match Load(fs, Join(dir, listing[0]))
      case Failure(e) => Failure(e)
      case Success(v) =>
        match Contains("deter", v)
        case None => Failure(NotContainer(Join(dir, listing[0])))
        case Some(found) =>
          if found then Prepend([Visit(ImageOf(listing[0]), v)], TriggersSpec(fs, dir, listing[1..]))
          else TriggersSpec(fs, dir, listing[1..])
  }

  /** The trigger `.json` names of a listing, in listing order. */
  function DeterFiles(fs: map<string, Content>, dir: string, listing: seq<string>): (names: seq<string>)
    decreases |listing|
  {
    if listing == [] then []
    else if IsDeterFile(fs, dir, listing[0]) then [listing[0]] + DeterFiles(fs, dir, listing[1..])
    else DeterFiles(fs, dir, listing[1..])
  }

  /** A name is kept exactly when it is listed and a trigger file; never
      more names than listed. */
  lemma {:induction false} DeterFilesMembers(fs: map<string, Content>, dir: string, listing: seq<string>)
    ensures |DeterFiles(fs, dir, listing)| <= |listing|
    ensures forall n :: n in DeterFiles(fs, dir, listing) <==> n in listing && IsDeterFile(fs, dir, n)
    decreases |listing|
  {
    if listing != [] {
      DeterFilesMembers(fs, dir, listing[1..]);
      assert forall n :: n in listing <==> n == listing[0] || n in listing[1..];
    }
  }

  /** A listed name that does not stop `review_deter_triggers`: it is not a
      `.json` name, or it loads and its results are a container. */
  predicate TriggerLoads(fs: map<string, Content>, dir: string, name: string) {
    EndsWith(name, ".json") ==>
      Load(fs, Join(dir, name)).Success? &&
      Contains("deter", Load(fs, Join(dir, name)).value).Some?
  }

  /** `review_deter_triggers` succeeds exactly when every listed `.json`
      file loads and its results are a container. */
  lemma {:induction false} TriggersSucceedIff(fs: map<string, Content>, dir: string, listing: seq<string>)
    ensures TriggersSpec(fs, dir, listing).Success? <==>
      forall i :: 0 <= i < |listing| ==> TriggerLoads(fs, dir, listing[i])
    decreases |listing|
  {
    if listing != [] {
      TriggersHead(fs, dir, listing);
      TriggersSucceedIff(fs, dir, listing[1..]);
      forall i | 0 < i < |listing| ensures listing[i] == listing[1..][i - 1] { }
    }
  }

  /** Each case of one step of `TriggersSpec`, as the loop meets them. */
  lemma TriggersCases(fs: map<string, Content>, dir: string, listing: seq<string>)
    requires listing != []
    ensures var name, rest := listing[0], TriggersSpec(fs, dir, listing[1..]);
      var loaded := Load(fs, Join(dir, name));
      var page := TriggersSpec(fs, dir, listing);
      && (!EndsWith(name, ".json") ==> page == rest)
      && (EndsWith(name, ".json") && loaded.Failure? ==> page == Failure(loaded.error))
      && (EndsWith(name, ".json") && loaded.Success? && Contains("deter", loaded.value).None? ==>
            page == Failure(NotContainer(Join(dir, name))))
      && (EndsWith(name, ".json") && loaded.Success? && Contains("deter", loaded.value) == Some(true) ==>
            page == Prepend([Visit(ImageOf(name), loaded.value)], rest))
      && (EndsWith(name, ".json") && loaded.Success? && Contains("deter", loaded.value) == Some(false) ==>
            page == rest)
  {
  }

  /** How the head name decides between stopping and going on. */
  lemma TriggersHead(fs: map<string, Content>, dir: string, listing: seq<string>)
    requires listing != []
    ensures !TriggerLoads(fs, dir, listing[0]) ==> TriggersSpec(fs, dir, listing).Failure?
    ensures TriggerLoads(fs, dir, listing[0]) ==>
      TriggersSpec(fs, dir, listing).Success? == TriggersSpec(fs, dir, listing[1..]).Success?
  {
  }

  /** The row `review_deter_triggers` adds for a trigger file. */
  function TriggerRow(fs: map<string, Content>, dir: string, name: string): (row: Visit)
    requires IsDeterFile(fs, dir, name)
  {
    Visit(ImageOf(name), Load(fs, Join(dir, name)).value)
  }

  /** `row` reports the file `name` under its `.png` name with exactly its
      loaded results, which contain "deter". */
  predicate ReportsFile(fs: map<string, Content>, dir: string, name: string, row: Visit) {
    && row.image == ImageOf(name)
    && Load(fs, Join(dir, name)) == Success(row.results)
    && Contains("deter", row.results) == Some(true)
  }

  /** One step of `DeterFiles`. */
  lemma DeterFilesStep(fs: map<string, Content>, dir: string, listing: seq<string>)
    requires listing != []
    ensures DeterFiles(fs, dir, listing) ==
      if IsDeterFile(fs, dir, listing[0]) then [listing[0]] + DeterFiles(fs, dir, listing[1..])
      else DeterFiles(fs, dir, listing[1..])
  {
  }

  /** One step of `TriggersSpec` on a page that renders: a trigger file at
      the head contributes its row, any other name none. */
  lemma TriggersStep(fs: map<string, Content>, dir: string, listing: seq<string>)
    requires listing != [] && TriggersSpec(fs, dir, listing).Success?
    ensures TriggersSpec(fs, dir, listing[1..]).Success?
    ensures IsDeterFile(fs, dir, listing[0]) ==>
      && ReportsFile(fs, dir, listing[0], TriggerRow(fs, dir, listing[0]))
      && TriggersSpec(fs, dir, listing).value ==
           [TriggerRow(fs, dir, listing[0])] + TriggersSpec(fs, dir, listing[1..]).value
    ensures !IsDeterFile(fs, dir, listing[0]) ==>
      TriggersSpec(fs, dir, listing) == TriggersSpec(fs, dir, listing[1..])
  {
  }

  /** On success the rows are, in order, the trigger files of the listing,
      each reported under its `.png` name with exactly its loaded results,
      which contain "deter". */
  lemma {:induction false} TriggersVisits(fs: map<string, Content>, dir: string, listing: seq<string>)
    requires TriggersSpec(fs, dir, listing).Success?
    ensures var ts := TriggersSpec(fs, dir, listing).value;
      var names := DeterFiles(fs, dir, listing);
      && |ts| == |names|
      && forall k :: 0 <= k < |ts| ==> ReportsFile(fs, dir, names[k], ts[k])
    decreases |listing|
  {
    if listing != [] {
      var rest := listing[1..];
      TriggersStep(fs, dir, listing);
      DeterFilesStep(fs, dir, listing);
      TriggersVisits(fs, dir, rest);
      if IsDeterFile(fs, dir, listing[0]) {
        RelatedCons((n, v) => ReportsFile(fs, dir, n, v), listing[0], TriggerRow(fs, dir, listing[0]),
                    DeterFiles(fs, dir, rest), TriggersSpec(fs, dir, rest).value);
      }
    }
  }

  /** The `review_deter_triggers` page: walk the listing, load each `.json`
      file, and append a row when its results contain "deter". */
  method ReviewDeterTriggers(fs: map<string, Content>, listing: seq<string>) returns (r: Result<seq<Visit>, Error>)
    ensures r == TriggersSpec(fs, STORAGE_PATH, listing)
  {
    var triggers: seq<Visit> := [];
    var i := 0;
    PrependNothing(TriggersSpec(fs, STORAGE_PATH, listing));
    assert listing[0..] == listing;
    while i < |listing|
      invariant 0 <= i <= |listing|
      invariant TriggersSpec(fs, STORAGE_PATH, listing) == Prepend(triggers, TriggersSpec(fs, STORAGE_PATH, listing[i..]))
    {
      var filename := listing[i];
      assert listing[i..][1..] == listing[i + 1..] && listing[i..][0] == filename;
      TriggersCases(fs, STORAGE_PATH, listing[i..]);
      if EndsWith(filename, ".json") {
        var loaded := Load(fs, Join(STORAGE_PATH, filename));
        if loaded.Failure? {
          return Failure(loaded.error);
        }
        var results := loaded.value;
        var found := Contains("deter", results);
        if found.None? {
          return Failure(NotContainer(Join(STORAGE_PATH, filename)));
        }
        if found.value {
          PrependAppend(triggers, Visit(ImageOf(filename), results), TriggersSpec(fs, STORAGE_PATH, listing[i + 1..]));
          triggers := triggers + [Visit(ImageOf(filename), results)];
        }
      }
      i := i + 1;
    }
    assert triggers + [] == triggers;
    return Success(triggers);
  }
}
