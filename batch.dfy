/** main: create the output folder, stop early when the reference image or
    the input folder is missing, then make one card per listed image file.
    The file system is a value read at the start; the run is recorded as the
    sequence of steps it takes. */
module Batch {
  import opened Geometry
  import opened Composite
  import opened FileNames

  const InputFolder: string := "images"
  const OutputFolder: string := "results"
  const ReferenceFile: string := "card-energy-v2.png"

  /** What the run can observe. `listing` is os.listdir(InputFolder) in the
      order it returns; `reference` is the decoded reference image (None: it
      exists but cannot be opened or decoded); `photos` gives the photo at an
      input path (None: Image.open cannot identify it, or it is square and its
      pixels fail to decode; a non-square photo with a readable header is
      Some, whatever its pixel data); `writable` says whether saving to an
      output path succeeds. */
  datatype Disk = Disk(
    outputFolderExists: bool,
    referenceExists: bool,
    inputFolderExists: bool,
    listing: seq<string>,
    reference: Option<Template>,
    photos: string -> Option<Subject>,
    writable: string -> bool)

  datatype Step =
    | MadeOutputFolder
    | ReferenceMissing
    | InputFolderMissing
    | Composed(inputPath: string, outputPath: string, outcome: CardOutcome)

  /** The create_composite_card call made for one accepted file name. */
  function ComposeStep(disk: Disk, filename: string): Step {
    var inputPath := Join(InputFolder, filename);
    var outputPath := Join(OutputFolder, OutputName(filename));
    Composed(inputPath, outputPath, CardResult(disk.reference, disk.photos(inputPath), disk.writable(outputPath)))
  }

  /** The listed names the extension filter accepts, in listing order. */
  function Accepted(names: seq<string>): (accepted: seq<string>)
    ensures forall name :: name in accepted <==> name in names && IsImageFile(name)
  {
    if names == [] then []
    else
      var init, last := names[..|names| - 1], names[|names| - 1];
      assert names == init + [last];
      Accepted(init) + (if IsImageFile(last) then [last] else [])
  }

  /** The step create_composite_card contributes for each name. */
  function Visit(disk: Disk): string -> Step {
    (filename: string) => ComposeStep(disk, filename)
  }

  /** The steps of the loop over the listed names: one visit per name the
      filter accepts. */
  function LoopSteps(names: seq<string>, visit: string -> Step): seq<Step> {
    if names == [] then []
    else
      var last := names[|names| - 1];
      LoopSteps(names[..|names| - 1], visit) + (if IsImageFile(last) then [visit(last)] else [])
  }

  lemma LoopStepsSnoc(names: seq<string>, name: string, visit: string -> Step)
    ensures LoopSteps(names + [name], visit) ==
            LoopSteps(names, visit) + (if IsImageFile(name) then [visit(name)] else [])
  {
    assert (names + [name])[..|names|] == names;
  }

  /** One more name of the listing adds its visit, if any, to the loop's steps. */
  lemma {:induction false} LoopAdvance(names: seq<string>, i: nat, visit: string -> Step, steps: seq<Step>)
    requires i < |names|
    requires steps == if IsImageFile(names[i]) then [visit(names[i])] else []
    ensures LoopSteps(names[..i + 1], visit) == LoopSteps(names[..i], visit) + steps
  {
    assert names[..i + 1] == names[..i] + [names[i]];
    LoopStepsSnoc(names[..i], names[i], visit);
  }

  /** The whole run: the output folder is created first when missing; then
      a missing reference image or input folder ends the run before any file
      is looked at; otherwise the loop runs over the whole listing. */
  function BatchTrace(disk: Disk): seq<Step> {
    (if disk.outputFolderExists then [] else [MadeOutputFolder]) +
    (if !disk.referenceExists then [ReferenceMissing]
     else if !disk.inputFolderExists then [InputFolderMissing]
     else LoopSteps(disk.listing, Visit(disk)))
  }

  /** One iteration of the loop: an accepted name gets its card made under
      the derived output name; any other name is passed over. */
  method VisitFile(disk: Disk, filename: string) returns (steps: seq<Step>)
    ensures steps == if IsImageFile(filename) then [Visit(disk)(filename)] else []
  {
    var inputPath := Join(InputFolder, filename);
    if IsImageFile(filename) {
      var outputPath := Join(OutputFolder, OutputName(filename));
      var outcome, written := CreateCompositeCard(disk.reference, disk.photos(inputPath), disk.writable(outputPath));
      steps := [Composed(inputPath, outputPath, outcome)];
    } else {
      steps := [];
    }
  }

  /** main, step by step. create_composite_card catches every exception
      raised while making a card, so no outcome of one file can end the
      loop (printing is taken never to raise). */
  method RunBatch(disk: Disk) returns (trace: seq<Step>)
    ensures trace == BatchTrace(disk)
  {
    trace := [];
    if !disk.outputFolderExists {
      trace := trace + [MadeOutputFolder];
    }
    if !disk.referenceExists {
      trace := trace + [ReferenceMissing];
      return;
    }
    if !disk.inputFolderExists {
      trace := trace + [InputFolderMissing];
      return;
    }
    var steps := VisitAll(disk);
    trace := trace + steps;
  }

  /** The loop of main over os.listdir(InputFolder), in listing order. */
  method VisitAll(disk: Disk) returns (steps: seq<Step>)
    ensures steps == LoopSteps(disk.listing, Visit(disk))
  {
    steps := [];
    var i := 0;
    while i < |disk.listing|
      invariant 0 <= i <= |disk.listing|
      invariant steps == LoopSteps(disk.listing[..i], Visit(disk))
    {
      var more := VisitFile(disk, disk.listing[i]);
      LoopAdvance(disk.listing, i, Visit(disk), more);
      steps := steps + more;
      i := i + 1;
    }
    assert disk.listing[..i] == disk.listing;
  }

  /** The loop visits exactly the accepted names, once each, in listing
      order, whatever the outcome of the visits before. */
  lemma {:induction false} OneCallPerImage(names: seq<string>, visit: string -> Step)
    ensures |LoopSteps(names, visit)| == |Accepted(names)|
    ensures forall k | 0 <= k < |Accepted(names)| :: LoopSteps(names, visit)[k] == visit(Accepted(names)[k])
  {
    if names != [] {
      OneCallPerImage(names[..|names| - 1], visit);
    }
  }

  /** The early exits: the output folder, when missing, is created first,
      and only once; a missing reference image or input folder ends the run
      before any card is attempted. */
  lemma {:induction false} SetupOrder(disk: Disk)
    ensures var trace := BatchTrace(disk);
      && (!disk.outputFolderExists <==> |trace| > 0 && trace[0] == MadeOutputFolder)
      && (forall k | 0 < k < |trace| :: trace[k] != MadeOutputFolder)
      && (!disk.referenceExists || !disk.inputFolderExists ==>
            forall k | 0 <= k < |trace| :: !trace[k].Composed?)
  {
    if disk.referenceExists && disk.inputFolderExists {
      forall name | true
        ensures Visit(disk)(name).Composed?
      {
      }
      LoopStepsComposed(disk.listing, Visit(disk));
      var setup: seq<Step> := if disk.outputFolderExists then [] else [MadeOutputFolder];
      var loop := LoopSteps(disk.listing, Visit(disk));
      assert BatchTrace(disk) == setup + loop;
      forall k | |setup| <= k < |setup| + |loop|
        ensures (setup + loop)[k].Composed?
      {
        assert (setup + loop)[k] == loop[k - |setup|];
      }
    }
  }

  /** Every step of the loop is a card attempt. */
  lemma {:induction false} LoopStepsComposed(names: seq<string>, visit: string -> Step)
    requires forall name :: visit(name).Composed?
    ensures forall k | 0 <= k < |LoopSteps(names, visit)| :: LoopSteps(names, visit)[k].Composed?
  {
    if names != [] {
      LoopStepsComposed(names[..|names| - 1], visit);
    }
  }

  /** Two steps do the same thing, apart from how a card attempt ends. */
  predicate SameAttempt(s1: Step, s2: Step) {
    if s1.Composed? then s2.Composed? && s1.inputPath == s2.inputPath && s1.outputPath == s2.outputPath
    else s1 == s2
  }

  /** Per-file containment: which files are attempted, and under which
      paths, does not depend on how any attempt ends. Two disks that agree on
      the folders and the listing, however their images differ (unreadable,
      non-square, unwritable), give runs of the same length that attempt the
      same files in the same order. */
  lemma {:induction false} OutcomesDoNotChangeAttempts(d1: Disk, d2: Disk)
    requires d1.outputFolderExists == d2.outputFolderExists
    requires d1.referenceExists == d2.referenceExists && d1.inputFolderExists == d2.inputFolderExists
    requires d1.listing == d2.listing
    ensures |BatchTrace(d1)| == |BatchTrace(d2)|
    ensures forall k | 0 <= k < |BatchTrace(d1)| :: SameAttempt(BatchTrace(d1)[k], BatchTrace(d2)[k])
  {
    forall name | true
      ensures SameAttempt(Visit(d1)(name), Visit(d2)(name))
    {
      SameCall(d1, d2, name);
    }
    if d1.referenceExists && d1.inputFolderExists {
      LoopAttempts(d1.listing, Visit(d1), Visit(d2));
      var setup: seq<Step> := if d1.outputFolderExists then [] else [MadeOutputFolder];
      var l1, l2 := LoopSteps(d1.listing, Visit(d1)), LoopSteps(d1.listing, Visit(d2));
      assert BatchTrace(d1) == setup + l1 && BatchTrace(d2) == setup + l2;
      forall k | |setup| <= k < |setup| + |l1|
        ensures SameAttempt((setup + l1)[k], (setup + l2)[k])
      {
        assert (setup + l1)[k] == l1[k - |setup|] && (setup + l2)[k] == l2[k - |setup|];
      }
    }
  }

  /** The paths of a call depend on the file name only. */
  lemma SameCall(d1: Disk, d2: Disk, filename: string)
    ensures SameAttempt(Visit(d1)(filename), Visit(d2)(filename))
  {
  }

  /** Two loops over the same names whose visits agree on each name up to
      the outcome agree step by step up to the outcomes. */
  lemma {:induction false} LoopAttempts(names: seq<string>, v1: string -> Step, v2: string -> Step)
    requires forall name :: SameAttempt(v1(name), v2(name))
    ensures |LoopSteps(names, v1)| == |LoopSteps(names, v2)|
    ensures forall k | 0 <= k < |LoopSteps(names, v1)| :: SameAttempt(LoopSteps(names, v1)[k], LoopSteps(names, v2)[k])
  {
    if names != [] {
      LoopAttempts(names[..|names| - 1], v1, v2);
    }
  }

  /** A card is attempted for a name exactly when the name is listed and
      passes the filter (given that the run gets as far as the loop). */
  lemma {:induction false} AttemptedIffImage(disk: Disk, name: string)
    requires disk.referenceExists && disk.inputFolderExists
    ensures ComposeStep(disk, name) in BatchTrace(disk) <==> name in disk.listing && IsImageFile(name)
  {
    OneCallPerImage(disk.listing, Visit(disk));
    var setup: seq<Step> := if disk.outputFolderExists then [] else [MadeOutputFolder];
    assert BatchTrace(disk) == setup + LoopSteps(disk.listing, Visit(disk));
    if ComposeStep(disk, name) in BatchTrace(disk) {
      OnlyImagesAttempted(disk, setup, name);
    }
    if name in disk.listing && IsImageFile(name) {
      EveryImageAttempted(disk, setup, name);
    }
  }

  lemma {:induction false} OnlyImagesAttempted(disk: Disk, setup: seq<Step>, name: string)
    requires BatchTrace(disk) == setup + LoopSteps(disk.listing, Visit(disk))
    requires forall k | 0 <= k < |setup| :: !setup[k].Composed?
    requires |LoopSteps(disk.listing, Visit(disk))| == |Accepted(disk.listing)|
    requires forall k | 0 <= k < |Accepted(disk.listing)| ::
      LoopSteps(disk.listing, Visit(disk))[k] == ComposeStep(disk, Accepted(disk.listing)[k])
    requires ComposeStep(disk, name) in BatchTrace(disk)
    ensures name in disk.listing && IsImageFile(name)
  {
    var trace, accepted := BatchTrace(disk), Accepted(disk.listing);
    var k :| 0 <= k < |trace| && trace[k] == ComposeStep(disk, name);
    assert k >= |setup|;
    var j := k - |setup|;
    assert trace[k] == ComposeStep(disk, accepted[j]);
    JoinInputInjective(accepted[j], name);
    assert accepted[j] in accepted;
  }

  lemma {:induction false} EveryImageAttempted(disk: Disk, setup: seq<Step>, name: string)
    requires BatchTrace(disk) == setup + LoopSteps(disk.listing, Visit(disk))
    requires |LoopSteps(disk.listing, Visit(disk))| == |Accepted(disk.listing)|
    requires forall k | 0 <= k < |Accepted(disk.listing)| ::
      LoopSteps(disk.listing, Visit(disk))[k] == ComposeStep(disk, Accepted(disk.listing)[k])
    requires name in disk.listing && IsImageFile(name)
    ensures ComposeStep(disk, name) in BatchTrace(disk)
  {
    var accepted := Accepted(disk.listing);
    assert name in accepted;
    var j :| 0 <= j < |accepted| && accepted[j] == name;
    assert BatchTrace(disk)[|setup| + j] == ComposeStep(disk, name);
  }

  /** A folder holding a corrupt photo, a good square photo and a text
      file, next to an 850 by 850 reference image; every output is
      writable. */
  function MixedFolder(t: Template, good: Subject): Disk {
    Disk(true, true, true, ["bad.png", "Photo.JPEG", "notes.txt"], Some(t),
         (path: string) => if path == "images/Photo.JPEG" then Some(good) else None,
         (path: string) => true)
  }

  /** The corrupt photo is reported as a failure and the run goes on: the
      good photo still gets its card, at (43, 468), and the text file is
      passed over. */
  lemma CorruptFileDoesNotStopBatch(t: Template, good: Subject)
    requires t.width == 850 && t.height == 850 && good.width == good.height
    ensures BatchTrace(MixedFolder(t, good)) ==
      [Composed("images/bad.png", "results/bad_card.png", Failed),
       Composed("images/Photo.JPEG", "results/Photo_card.png", Generated(Position(43, 468)))]
  {
    var disk := MixedFolder(t, good);
    BadStep(t, good);
    PhotoStep(t, good);
    ExampleRejected();
    LoopOfThree("bad.png", "Photo.JPEG", "notes.txt", Visit(disk));
  }

  lemma LoopOfThree(a: string, b: string, c: string, visit: string -> Step)
    requires IsImageFile(a) && IsImageFile(b) && !IsImageFile(c)
    ensures LoopSteps([a, b, c], visit) == [visit(a), visit(b)]
  {
    calc {
      LoopSteps([a, b, c], visit);
      { assert [a, b, c] == [a, b] + [c]; LoopStepsSnoc([a, b], c, visit); }
      LoopSteps([a, b], visit);
      { assert [a, b] == [a] + [b]; LoopStepsSnoc([a], b, visit); }
      LoopSteps([a], visit) + [visit(b)];
      { assert [a] == [] + [a]; LoopStepsSnoc([], a, visit); }
      [visit(a), visit(b)];
    }
  }

  lemma BadStep(t: Template, good: Subject)
    ensures IsImageFile("bad.png")
    ensures ComposeStep(MixedFolder(t, good), "bad.png") == Composed("images/bad.png", "results/bad_card.png", Failed)
  {
    BadName();
    BadPaths();
    assert |"images/bad.png"| != |"images/Photo.JPEG"|;
  }

  lemma PhotoStep(t: Template, good: Subject)
    requires t.width == 850 && t.height == 850 && good.width == good.height
    ensures IsImageFile("Photo.JPEG")
    ensures ComposeStep(MixedFolder(t, good), "Photo.JPEG") ==
      Composed("images/Photo.JPEG", "results/Photo_card.png", Generated(Position(43, 468)))
  {
    ExampleUpperCase();
    PhotoPaths();
    Template850();
  }

  lemma BadName()
    ensures IsImageFile("bad.png") && OutputName("bad.png") == "bad_card.png"
  {
    assert EndsWith(Lower("bad.png"), ImageExtensions[0]);
    OutputNameOfImage("bad.png", ".png");
    assert "bad.png"[0] != '.' && "bad.png"[..3] == "bad";
  }

  lemma BadPaths()
    ensures Join(InputFolder, "bad.png") == "images/bad.png"
    ensures Join(OutputFolder, "bad_card.png") == "results/bad_card.png"
  {
    JoinExample(InputFolder, "bad.png");
    JoinExample(OutputFolder, "bad_card.png");
  }

  lemma PhotoPaths()
    ensures Join(InputFolder, "Photo.JPEG") == "images/Photo.JPEG"
    ensures Join(OutputFolder, "Photo_card.png") == "results/Photo_card.png"
  {
    JoinExample(InputFolder, "Photo.JPEG");
    JoinExample(OutputFolder, "Photo_card.png");
  }

  /** Distinct listed names give distinct input paths. */
  lemma {:induction false} JoinInputInjective(a: string, b: string)
    requires Join(InputFolder, a) == Join(InputFolder, b)
    ensures a == b
  {
    JoinRoundTrip(InputFolder, a);
    JoinRoundTrip(InputFolder, b);
  }
}
