/**
 * Per-frame vehicle counting (detect_vehicles in main.py).
 *
 * The detector itself is an oracle: for one frame it either returns its
 * boxes, of which only the class name of each matters here, or something
 * inside the try block raises, after the loop has handled some of the boxes,
 * which is `Fail` of those boxes. Drawing a box is modelled by appending its label to the frame's
 * overlays; pixels, coordinates and confidence text are not modelled.
 */
module Detection {

  /** The classes that are counted and drawn. */
  const VehicleLabels: set<string> := {"car", "bus", "truck", "motorcycle"}

  /**
   * What detection does on one frame: it finds the boxes `labels`, or it
   * raises after handling the boxes `handled` (none when the model call
   * itself raises).
   */
  datatype DetectorResult = Fail(handled: seq<string>) | Boxes(labels: seq<string>)

  /**
   * An opaque raster: `content` identifies the picture, `overlays` lists
   * the labels of the boxes drawn onto it, in drawing order.
   */
  datatype Frame = Frame(content: nat, width: nat, height: nat, overlays: seq<string>)

  /** Number of detections in `labels` whose class name is `l`. */
  function Occurrences(labels: seq<string>, l: string): nat
  {
    if labels == [] then 0
    else Occurrences(labels[..|labels| - 1], l) + (if labels[|labels| - 1] == l then 1 else 0)
  }

  /** The detections that are drawn: those with a vehicle label, in the detector's order. */
  function VehicleBoxes(labels: seq<string>): (r: seq<string>)
    ensures |r| <= |labels|
    ensures forall j :: 0 <= j < |r| ==> r[j] in VehicleLabels
  {
    if labels == [] then []
    else
      var prev := VehicleBoxes(labels[..|labels| - 1]);
      if labels[|labels| - 1] in VehicleLabels then prev + [labels[|labels| - 1]] else prev
  }

  /** The four-key dictionary the source starts from and falls back to. */
  function ZeroCounts(): map<string, int>
  {
    map["car" := 0, "bus" := 0, "truck" := 0, "motorcycle" := 0]
  }

  /** `sum(class_counts.values())` for a dictionary holding the four vehicle keys. */
  function Total(counts: map<string, int>): int
    requires VehicleLabels <= counts.Keys
  {
    counts["car"] + counts["bus"] + counts["truck"] + counts["motorcycle"]
  }

  /**
   * Reference definition of the per-class counters: each vehicle class
   * maps to the number of detections carrying that label.
   */
  function CountsOf(d: DetectorResult): (r: map<string, int>)
    ensures r.Keys == VehicleLabels
    ensures forall l :: l in r ==> 0 <= r[l]
  {
    match d
    case Fail(_) => ZeroCounts()
    case Boxes(labels) => map l | l in VehicleLabels :: Occurrences(labels, l)
  }

  /** The total the source reports for a detector result. */
  function TotalOf(d: DetectorResult): (t: int)
    ensures 0 <= t
    ensures d.Fail? ==> t == 0
    ensures d.Boxes? ==> t == |VehicleBoxes(d.labels)| && t <= |d.labels|
  {
    if d.Boxes? then VehicleBoxesCount(d.labels); Total(CountsOf(d)) else Total(CountsOf(d))
  }

  /**
   * The frame after the boxes the loop handled are drawn on it, in place:
   * the boxes drawn before an exception stay on the frame.
   */
  function Annotate(frame: Frame, d: DetectorResult): (r: Frame)
    ensures r.content == frame.content && r.width == frame.width && r.height == frame.height
    ensures |frame.overlays| <= |r.overlays| && r.overlays[..|frame.overlays|] == frame.overlays
    ensures d.Boxes? ==> |r.overlays| == |frame.overlays| + TotalOf(d)
    ensures d.Fail? ==> |r.overlays| == |frame.overlays| + |VehicleBoxes(d.handled)|
  {
    match d
    case Fail(handled) => frame.(overlays := frame.overlays + VehicleBoxes(handled))
    case Boxes(labels) => frame.(overlays := frame.overlays + VehicleBoxes(labels))
  }

  /**
   * detect_vehicles: counts the vehicle detections of one frame class by
   * class, draws each on the frame, and returns the total, the counters and
   * the annotated frame. When something raises, the handler returns zeros
   * and the frame with the boxes drawn so far.
   */
  method DetectVehicles(frame: Frame, detection: DetectorResult)
    returns (total: int, classCounts: map<string, int>, annotated: Frame)
    ensures classCounts == CountsOf(detection)
    ensures total == TotalOf(detection)
    ensures annotated == Annotate(frame, detection)
  {
    // the boxes the loop goes through before it ends or something raises
    var boxes := if detection.Boxes? then detection.labels else detection.handled;
    FailIsEmptyDetection(frame);
    assert boxes[..0] == [];
    classCounts := ZeroCounts();
    annotated := frame;
    for i := 0 to |boxes|
      invariant classCounts == CountsOf(Boxes(boxes[..i]))
      invariant annotated == Annotate(frame, Boxes(boxes[..i]))
    {
      var name := boxes[i];
      assert boxes[..i + 1] == boxes[..i] + [name];
      CountsStep(frame, boxes[..i], name);
      if name in VehicleLabels {
        classCounts := classCounts[name := classCounts[name] + 1];
        // rectangle and caption drawn at the box
        annotated := annotated.(overlays := annotated.overlays + [name]);
      }
    }
    assert boxes[..|boxes|] == boxes;
    if detection.Fail? {
      // the exception handler: the counters are dropped, the drawing stays
      FailKeepsDrawnBoxes(frame, boxes);
      return 0, ZeroCounts(), annotated;
    }
    total := Total(classCounts);
  }

  /** One more detection increments the counter of its label, if it is a vehicle, and draws it. */
  lemma CountsStep(frame: Frame, labels: seq<string>, name: string)
    ensures CountsOf(Boxes(labels + [name])) ==
              if name in VehicleLabels
              then CountsOf(Boxes(labels))[name := CountsOf(Boxes(labels))[name] + 1]
              else CountsOf(Boxes(labels))
    ensures Annotate(frame, Boxes(labels + [name])) ==
              if name in VehicleLabels
              then Annotate(frame, Boxes(labels)).(overlays := Annotate(frame, Boxes(labels)).overlays + [name])
              else Annotate(frame, Boxes(labels))
  {
    var s := labels + [name];
    assert s[..|s| - 1] == labels;
    assert VehicleBoxes(s) == VehicleBoxes(labels) + if name in VehicleLabels then [name] else [];
    assert frame.overlays + VehicleBoxes(s)
        == frame.overlays + VehicleBoxes(labels) + (if name in VehicleLabels then [name] else []);
    var before, after := CountsOf(Boxes(labels)), CountsOf(Boxes(s));
    var expected := if name in VehicleLabels then before[name := before[name] + 1] else before;
    assert expected.Keys == after.Keys;
    forall l | l in after
      ensures after[l] == expected[l]
    {
      assert after[l] == Occurrences(s, l) == Occurrences(labels, l) + (if name == l then 1 else 0);
    }
  }

  /** The number of boxes drawn is the sum of the four class counters. */
  lemma {:induction false} VehicleBoxesCount(labels: seq<string>)
    ensures |VehicleBoxes(labels)| == Occurrences(labels, "car") + Occurrences(labels, "bus")
                                      + Occurrences(labels, "truck") + Occurrences(labels, "motorcycle")
  {
    if labels != [] {
      VehicleBoxesCount(labels[..|labels| - 1]);
    }
  }

  /** Each counter is the multiplicity of its label in the detections. */
  lemma {:induction false} OccurrencesIsMultiplicity(labels: seq<string>, l: string)
    ensures Occurrences(labels, l) == multiset(labels)[l]
  {
    if labels != [] {
      var init := labels[..|labels| - 1];
      assert labels == init + [labels[|labels| - 1]];
      OccurrencesIsMultiplicity(init, l);
    }
  }

  /** The counts do not depend on the order in which the detector lists its boxes. */
  lemma CountsOrderIndependent(a: seq<string>, b: seq<string>)
    requires multiset(a) == multiset(b)
    ensures CountsOf(Boxes(a)) == CountsOf(Boxes(b))
    ensures TotalOf(Boxes(a)) == TotalOf(Boxes(b))
  {
    forall l | l in VehicleLabels
      ensures Occurrences(a, l) == Occurrences(b, l)
    {
      OccurrencesIsMultiplicity(a, l);
      OccurrencesIsMultiplicity(b, l);
    }
  }

  /** A detection whose label is not a vehicle class changes no counter, wherever it appears. */
  lemma NonVehicleIgnored(a: seq<string>, x: string, b: seq<string>)
    requires x !in VehicleLabels
    ensures CountsOf(Boxes(a + [x] + b)) == CountsOf(Boxes(a + b))
    ensures TotalOf(Boxes(a + [x] + b)) == TotalOf(Boxes(a + b))
  {
    forall l | l in VehicleLabels
      ensures Occurrences(a + [x] + b, l) == Occurrences(a + b, l)
    {
      OccurrencesIsMultiplicity(a + [x] + b, l);
      OccurrencesIsMultiplicity(a + b, l);
    }
  }

  /** A detection that raises before handling any box is indistinguishable from one that found nothing. */
  lemma FailIsEmptyDetection(frame: Frame)
    ensures CountsOf(Fail([])) == CountsOf(Boxes([])) == ZeroCounts()
    ensures TotalOf(Fail([])) == TotalOf(Boxes([])) == 0
    ensures Annotate(frame, Fail([])) == Annotate(frame, Boxes([])) == frame
  {
    assert frame.overlays + [] == frame.overlays;
  }

  /**
   * A detection that raises after handling some boxes counts nothing, yet
   * leaves those boxes drawn, exactly as a detection that found only them.
   */
  lemma FailKeepsDrawnBoxes(frame: Frame, handled: seq<string>)
    ensures CountsOf(Fail(handled)) == ZeroCounts() && TotalOf(Fail(handled)) == 0
    ensures Annotate(frame, Fail(handled)) == Annotate(frame, Boxes(handled))
  {
  }

  /** One more detection is drawn after the others exactly when it is a vehicle. */
  lemma VehicleBoxesSnoc(labels: seq<string>, x: string)
    ensures VehicleBoxes(labels + [x]) == VehicleBoxes(labels) + if x in VehicleLabels then [x] else []
  {
    assert (labels + [x])[..|labels|] == labels;
    assert VehicleBoxes(labels) + [] == VehicleBoxes(labels);
  }

  lemma AppendAssoc<T>(a: seq<T>, b: seq<T>, c: seq<T>)
    ensures (a + b) + c == a + (b + c)
  {
  }

  /** Drawing keeps the detector's order: the boxes of two runs of detections are drawn one run after the other. */
  lemma {:induction false} VehicleBoxesInOrder(a: seq<string>, b: seq<string>)
    ensures VehicleBoxes(a + b) == VehicleBoxes(a) + VehicleBoxes(b)
  {
    if b == [] {
      assert a + b == a;
      assert VehicleBoxes(a) + [] == VehicleBoxes(a);
    } else {
      var init := b[..|b| - 1];
      var x := b[|b| - 1];
      var tail := if x in VehicleLabels then [x] else [];
      VehicleBoxesInOrder(a, init);
      assert b == init + [x];
      AppendAssoc(a, init, [x]);
      VehicleBoxesSnoc(a + init, x);
      VehicleBoxesSnoc(init, x);
      AppendAssoc(VehicleBoxes(a), VehicleBoxes(init), tail);
    }
  }

  /** Every vehicle detection is drawn exactly once, and nothing else is drawn. */
  lemma {:induction false} VehicleBoxesMultiset(labels: seq<string>)
    ensures forall l :: multiset(VehicleBoxes(labels))[l] == if l in VehicleLabels then multiset(labels)[l] else 0
  {
    if labels != [] {
      var init := labels[..|labels| - 1];
      var x := labels[|labels| - 1];
      VehicleBoxesMultiset(init);
      assert labels == init + [x];
    }
  }
}
