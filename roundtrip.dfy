/** How the file names written by `save_data` (bird_classify.py) meet the
    names the viewer (app.py) derives. */
module RoundTrip {
  import opened Wrappers
  import opened Strings
  import opened Json
  import opened BirdClassify
  import opened App

  /** The base name `save_data` gives a frame: `img-<tag>`. */
  function BaseName(millis: int): (base: string) {
    "img-" + Tag(millis)
  }

  /** On `save_data` names the viewer's two renamings are mutual inverses:
      the sidecar `index` looks for next to `img-<tag>.png` is exactly the
      results file `save_data` wrote, and the image a trigger reports for
      `img-<tag>.json` is exactly the image it wrote. */
  lemma SaveNamesPairUp(millis: int)
    ensures Sidecar(BaseName(millis) + ".png") == BaseName(millis) + ".json"
    ensures ImageOf(BaseName(millis) + ".json") == BaseName(millis) + ".png"
    ensures ImageOf(Sidecar(BaseName(millis) + ".png")) == BaseName(millis) + ".png"
    ensures Sidecar(ImageOf(BaseName(millis) + ".json")) == BaseName(millis) + ".json"
  {
    TagShape(millis);
    var base := BaseName(millis);
    assert '.' !in base by {
      assert base == "img-" + Tag(millis);
      forall i | 0 <= i < |base| ensures base[i] != '.' {
        if i >= 4 { assert base[i] == Tag(millis)[i - 4]; }
      }
    }
    ReplaceOnlySuffix(base, ".png", ".json");
    ReplaceOnlySuffix(base, ".json", ".png");
  }

  /** Inside a storage directory named without a trailing '/', joining the
      directory with a base name gives the full names `save_data` writes. */
  lemma JoinGivesSaveNames(path: string, millis: int, ext: string)
    requires path != [] && path[|path| - 1] != '/'
    ensures Join(path, BaseName(millis) + "." + ext) == ImageName(path, Tag(millis), ext)
    ensures Join(path, BaseName(millis) + ".json") == ResultsName(path, Tag(millis))
  {
    var tag := Tag(millis);
    var png, json := BaseName(millis) + "." + ext, BaseName(millis) + ".json";
    assert png == "img-" + tag + "." + ext && png[0] == 'i';
    assert json == "img-" + tag + ".json" && json[0] == 'i';
    assert Join(path, png) == path + "/" + png;
    assert Join(path, json) == path + "/" + json;
  }

  /** `replace` substitutes every occurrence, not only the suffix. */
  lemma ReplaceIsNotSuffixOnly()
    ensures Sidecar("a.png.png") == "a.json.json"
  {
    var one, two, name := ".png", ".png.png", "a.png.png";
    ReplaceOnlySuffix("", ".png", ".json");
    assert "" + one == one;
    assert two[..4] == one && two[4..] == one;
    assert ReplaceAll(two, ".png", ".json") == ".json" + ReplaceAll(one, ".png", ".json");
    assert name[..4][0] == 'a';
    assert name[1..] == two;
    assert ReplaceAll(name, ".png", ".json") == "a" + ReplaceAll(two, ".png", ".json");
  }

  /** The image `save_data` writes as a `.png` is paired, and its sidecar
      is the results file written beside it. */
  lemma SavedPngIsPaired(fs: map<string, Content>, image: Frame, results: seq<Class>,
                         path: string, millis: int)
    requires path != [] && path[|path| - 1] != '/'
    ensures var after := Saved(fs, image, results, path, "png", millis);
      var png := BaseName(millis) + ".png";
      && IsPairedPng(after, path, png)
      && Join(path, png) == ImageName(path, Tag(millis), "png")
      && Join(path, Sidecar(png)) == ResultsName(path, Tag(millis))
      && after[ResultsName(path, Tag(millis))] == JsonFile(EncodeResults(results))
  {
    var after := Saved(fs, image, results, path, "png", millis);
    var png := BaseName(millis) + ".png";
    SavedPngName(millis);
    SaveAddsImageAndResults(fs, image, results, path, "png", millis);
    SaveNamesPairUp(millis);
    JoinGivesSaveNames(path, millis, "png");
    assert BaseName(millis) + "." + "png" == png;
    var res := ResultsName(path, Tag(millis));
    assert Join(path, Sidecar(png)) == res && res in after;
  }

  /** A complete listing of the storage directory after the save names the
      saved image. */
  lemma CompleteListingNamesSavedPng(fs: map<string, Content>, image: Frame, results: seq<Class>,
                                     path: string, millis: int, listing: seq<string>)
    requires path != [] && path[|path| - 1] != '/'
    ensures ListsDirectory(Saved(fs, image, results, path, "png", millis), path, listing) ==>
      BaseName(millis) + ".png" in listing
  {
    var after := Saved(fs, image, results, path, "png", millis);
    var png := BaseName(millis) + ".png";
    SavedPngName(millis);
    SavedPngIsPaired(fs, image, results, path, millis);
    SaveAddsImageAndResults(fs, image, results, path, "png", millis);
    assert Join(path, png) in after;
  }

  /** A `.png` name a frame is saved under is a plain file name. */
  lemma SavedPngName(millis: int)
    ensures var png := BaseName(millis) + ".png";
      EndsWith(png, ".png") && |png| > 0 && '/' !in png
  {
    var tag := Tag(millis);
    var png := BaseName(millis) + ".png";
    TagShape(millis);
    assert png[|png| - 4..] == ".png";
    forall i | 0 <= i < |png| ensures png[i] != '/' {
      if 4 <= i < 4 + |tag| { assert png[i] == tag[i - 4]; }
    }
  }

  /** A frame saved as a `.png` by `save_data` into the viewer's directory,
      and listed there, is found again by `index`: when the page renders, it holds a row with
      the image's name and exactly the results that were saved; when it
      fails, it fails on some other file. */
  lemma SavedFrameIsListed(fs: map<string, Content>, image: Frame, results: seq<Class>,
                           path: string, millis: int, listing: seq<string>)
    requires path != [] && path[|path| - 1] != '/'
    requires BaseName(millis) + ".png" in listing
    ensures var after := Saved(fs, image, results, path, "png", millis);
      var page := IndexSpec(after, path, listing);
      && (page.Success? ==> Visit(BaseName(millis) + ".png", EncodeResults(results)) in page.value)
      && (page.Failure? ==> page.error.path != ResultsName(path, Tag(millis)))
  {
    var after := Saved(fs, image, results, path, "png", millis);
    var png := BaseName(millis) + ".png";
    SavedPngIsPaired(fs, image, results, path, millis);
    var page := IndexSpec(after, path, listing);
    if page.Success? {
      PairedPngsMembers(after, path, listing);
      IndexVisits(after, path, listing);
      var names := PairedPngs(after, path, listing);
      var k :| 0 <= k < |names| && names[k] == png;
      assert page.value[k] == Visit(png, EncodeResults(results));
    } else {
      IndexFailure(after, path, listing);
    }
  }

  /** With a listing that repeats no name, as `os.listdir` gives, a rendered
      `index` page holds exactly one row for the saved frame: the row with
      the image's name and its saved results, and no other row with that
      name. */
  lemma SavedFrameListedOnce(fs: map<string, Content>, image: Frame, results: seq<Class>,
                             path: string, millis: int, listing: seq<string>)
    requires path != [] && path[|path| - 1] != '/'
    requires BaseName(millis) + ".png" in listing && Distinct(listing)
    ensures var after := Saved(fs, image, results, path, "png", millis);
      var page := IndexSpec(after, path, listing);
      var png := BaseName(millis) + ".png";
      page.Success? ==>
        && (exists k :: 0 <= k < |page.value| && page.value[k] == Visit(png, EncodeResults(results)))
        && (forall k, k' ::
              (0 <= k < |page.value| && 0 <= k' < |page.value| &&
               page.value[k].image == png && page.value[k'].image == png) ==> k == k')
  {
    var after := Saved(fs, image, results, path, "png", millis);
    var page := IndexSpec(after, path, listing);
    var png := BaseName(millis) + ".png";
    SavedFrameIsListed(fs, image, results, path, millis, listing);
    if page.Success? {
      IndexRowsDistinct(after, path, listing);
    }
  }

  /** The results `save_data` writes are a list of `[id, score]` pairs, so
      the string "deter" is never one of their elements. */
  lemma SavedResultsHoldNoDeter(results: seq<Class>)
    ensures Contains("deter", EncodeResults(results)) == Some(false)
  {
    var items := EncodeResults(results).items;
    forall i | 0 <= i < |items| ensures items[i] != JStr("deter") {
      assert items[i].JArr?;
    }
  }

  /** Consequently `review_deter_triggers` never reports a results file
      written by `save_data`, whatever the deterrence decided. */
  lemma SavedFramesNeverReviewed(fs: map<string, Content>, dir: string, listing: seq<string>, results: seq<Class>)
    requires TriggersSpec(fs, dir, listing).Success?
    ensures forall k :: 0 <= k < |TriggersSpec(fs, dir, listing).value| ==>
      TriggersSpec(fs, dir, listing).value[k].results != EncodeResults(results)
  {
    TriggersVisits(fs, dir, listing);
    SavedResultsHoldNoDeter(results);
  }
}
