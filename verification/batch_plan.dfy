/**
  The top-level batch loop of run_ic_light_bg.py without its file I/O: which input is
  relit, with which background preset and prompt, and where its result is saved.
*/
module BatchPlan {
  import opened Common
  import opened Listing
  import Background

  /** One iteration of the loop: the `process_relight` request and the file it writes. */
  datatype Job = Job(input: string, output: string, bgSource: string, prompt: string)

  /** The preset name the light-direction label selects (lines 501-510), later overridden. */
  function LabelPreset(light: string): (name: string)
    ensures name == "CUSTOM_GRAY" <==>
              light != "Left" && light != "Left_High" && light != "Right" && light != "Right_High"
  {
    if light == "Left" then "CUSTOM_LEFT"
    else if light == "Left_High" then "CUSTOM_LEFT_HIGH"
    else if light == "Right" then "CUSTOM_RIGHT"
    else if light == "Right_High" then "CUSTOM_RIGHT_HIGH"
    else "CUSTOM_GRAY"
  }

  /** Whatever the light label says, it selects one of the CUSTOM presets. */
  lemma LabelPresetIsCustom(light: string)
    ensures Background.Parse(LabelPreset(light)) in
              {Some(Background.CustomLeft), Some(Background.CustomLeftHigh), Some(Background.CustomRight),
               Some(Background.CustomRightHigh), Some(Background.CustomGray)}
  {
    Background.ParseValue(Background.CustomLeft);
    Background.ParseValue(Background.CustomLeftHigh);
    Background.ParseValue(Background.CustomRight);
    Background.ParseValue(Background.CustomRightHigh);
    Background.ParseValue(Background.CustomGray);
  }

  /**
    The batch driver. `listing` is the input directory's listing, `lightLines` and
    `hairLines` the raw lines of the two label files and `prompt` the `--prompt` argument.
    Every item is relit on the CUSTOM_GRAY background with the unmodified prompt and saved
    under its own file name.
  */
  method Plan(listing: seq<string>, lightLines: seq<string>, hairLines: seq<string>, prompt: string)
    returns (plan: seq<Job>)
    ensures |plan| == Min(|PngFiles(listing)|, Min(|lightLines|, |hairLines|))
    ensures forall i :: 0 <= i < |plan| ==>
              plan[i] == Job(PngFiles(listing)[i], PngFiles(listing)[i], "CUSTOM_GRAY", prompt)
  {
    var images := PngFiles(listing);
    var lightDirections := StripLines(lightLines);
    var hairColors := StripLines(hairLines);
    plan := ZipJobs(images, lightDirections, hairColors, prompt);
  }

  /**
    The loop over `zip(images, light_directions, hair_colors)`: it stops at the shortest
    list, and each item becomes a job on its own image whatever its labels say.
  */
  method ZipJobs(images: seq<string>, lightDirections: seq<string>, hairColors: seq<string>, prompt: string)
    returns (plan: seq<Job>)
    ensures |plan| == Min(|images|, Min(|lightDirections|, |hairColors|))
    ensures forall i :: 0 <= i < |plan| ==> plan[i] == Job(images[i], images[i], "CUSTOM_GRAY", prompt)
  {
    var count := Min(|images|, Min(|lightDirections|, |hairColors|));
    plan := [];
    var i := 0;
    while i < count
      invariant 0 <= i <= count
      invariant |plan| == i
      invariant forall k :: 0 <= k < i ==> plan[k] == Job(images[k], images[k], "CUSTOM_GRAY", prompt)
    {
      var image, lightSource, hairColor := images[i], lightDirections[i], hairColors[i];
      // The hair-colour prompt is computed and then never passed on.
      var itemPrompt := prompt;
      if hairColor == "gray hair" {
        itemPrompt := "white hair " + prompt;
      }
      var bgSource := LabelPreset(lightSource);
      bgSource := "CUSTOM_GRAY";
      plan := plan + [Job(image, image, bgSource, prompt)];
      i := i + 1;
    }
  }

  /**
    The save loop over `enumerate(results)`: only the first result is written, under the
    input's file name.
  */
  method SaveFirst<T>(image: string, results: seq<T>) returns (saved: seq<(string, T)>)
    ensures |saved| == if results == [] then 0 else 1
    ensures results != [] ==> saved[0] == (image, results[0])
  {
    saved := [];
    var i := 0;
    while i < |results|
      invariant 0 <= i <= |results|
      invariant saved == if i == 0 then [] else [(image, results[0])]
    {
      if i == 0 {
        saved := saved + [(image, results[i])];
      }
      i := i + 1;
    }
  }

  /**
    The planned jobs follow the image list: in sorted file-name order, each naming a `.png`
    file of the listing and writing back under that same name.
  */
  lemma PlannedFiles(listing: seq<string>, plan: seq<Job>, prompt: string)
    requires |plan| <= |PngFiles(listing)|
    requires forall i :: 0 <= i < |plan| ==>
               plan[i] == Job(PngFiles(listing)[i], PngFiles(listing)[i], "CUSTOM_GRAY", prompt)
    ensures forall i, j :: 0 <= i < j < |plan| ==> LexLe(plan[i].input, plan[j].input)
    ensures forall i :: 0 <= i < |plan| ==>
              IsPng(plan[i].input) && plan[i].input in listing && plan[i].output == plan[i].input
  {
    var files := PngFiles(listing);
    PngFilesSorted(listing);
    forall i | 0 <= i < |plan| ensures plan[i].input in listing {
      assert files[i] in multiset(files);
    }
  }

  /**
    Every planned job selects a background name that parses, and with no uploaded image it
    comes out uniformly 100.
  */
  lemma PlannedBackground(plan: seq<Job>, w: nat, h: nat)
    requires forall i :: 0 <= i < |plan| ==> plan[i].bgSource == "CUSTOM_GRAY"
    ensures forall i :: 0 <= i < |plan| ==>
              Background.Parse(plan[i].bgSource) == Some(Background.CustomGray)
              && Background.InputBackground(plan[i].bgSource, None, w, h)
                 == Success(Some(Background.Uniform(h, w, 100)))
  {
    Background.ParseValue(Background.CustomGray);
    Background.InputBackgroundByValue(Background.CustomGray, None, w, h);
  }
}
