/** The base hazard: event-indexed vectors and two events-by-centroids
    matrices (intensity and fraction) over a set of centroids. Only the shape
    validation and the base class's unimplemented file operations are
    modelled; each matrix is represented by its dimensions. */
module Hazards {
  import opened Wrappers
  import opened Checker

  /** The centroids: one id and one region id per centroid, and one
      (latitude, longitude) row per centroid. */
  datatype Centroids = Centroids(id: seq<int>, regionId: seq<int>, coord: seq<(real, real)>)

  /** The dimensions of a (sparse) matrix. */
  datatype Shape = Shape(rows: nat, cols: nat)

  datatype Hazard = Hazard(
    centroids: Centroids,
    eventId: seq<int>,
    eventName: seq<string>,
    frequency: seq<real>,
    intensity: Shape,
    fraction: Shape)

  /** The not-implemented signal of the base class's file operations; size
      violations are reported by `Check` as a `SizeError`. */
  datatype HazardError = NotImplemented(operation: string)

  /** The size requirements of the centroids, in checking order: the id count
      is the reference. */
  function CentroidChecks(c: Centroids): seq<SizeCheck> {
    [ SizeCheck("Centroids.region_id", |c.id|, |c.regionId|),
      SizeCheck("Centroids.coord", |c.id|, |c.coord|) ]
  }

  /** The centroids are consistent: as many region ids and coordinate rows as ids. */
  predicate CentroidsConsistent(c: Centroids) {
    |c.regionId| == |c.id| && |c.coord| == |c.id|
  }

  /** `Centroids.check`. */
  function CheckCentroids(c: Centroids): (r: Outcome<SizeError>)
    ensures r.Pass? <==> CentroidsConsistent(c)
    ensures r.Fail? ==> r.error.name in {"Centroids.region_id", "Centroids.coord"} && r.error.expected == |c.id|
  {
    var checks := CentroidChecks(c);
    assert AllHold(checks) <==> Holds(checks[0]) && Holds(checks[1]);
    Validate(checks)
  }

  /** The size requirements of a hazard, in checking order: the centroids
      first, then the event vectors against the event count, then the rows and
      columns of both matrices against the event and centroid counts. An empty
      event-name list is not checked. */
  function HazardChecks(h: Hazard): seq<SizeCheck> {
    var events := |h.eventId|;
    var centroids := |h.centroids.id|;
    CentroidChecks(h.centroids)
    + [SizeCheck("Hazard.frequency", events, |h.frequency|)]
    + (if |h.eventName| == 0 then [] else [SizeCheck("Hazard.event_name", events, |h.eventName|)])
    + [ SizeCheck("Hazard.intensity row", events, h.intensity.rows),
        SizeCheck("Hazard.intensity column", centroids, h.intensity.cols),
        SizeCheck("Hazard.fraction row", events, h.fraction.rows),
        SizeCheck("Hazard.fraction column", centroids, h.fraction.cols) ]
  }

  lemma HazardChecksHold(h: Hazard)
    ensures AllHold(HazardChecks(h)) <==> Consistent(h)
  {
    var c := HazardChecks(h);
    if |h.eventName| == 0 {
      assert |c| == 7;
      assert AllHold(c) <==> Holds(c[0]) && Holds(c[1]) && Holds(c[2]) && Holds(c[3]) && Holds(c[4]) && Holds(c[5]) && Holds(c[6]);
    } else {
      assert |c| == 8;
      assert AllHold(c) <==> Holds(c[0]) && Holds(c[1]) && Holds(c[2]) && Holds(c[3]) && Holds(c[4]) && Holds(c[5]) && Holds(c[6]) && Holds(c[7]);
    }
  }

  /** A hazard whose shapes agree: consistent centroids, one frequency (and,
      when names are given, one name) per event, and both matrices sized
      events by centroids. */
  predicate Consistent(h: Hazard) {
    && CentroidsConsistent(h.centroids)
    && |h.frequency| == |h.eventId|
    && (|h.eventName| == 0 || |h.eventName| == |h.eventId|)
    && h.intensity == Shape(|h.eventId|, |h.centroids.id|)
    && h.fraction == Shape(|h.eventId|, |h.centroids.id|)
  }

  /** `Hazard.check`: passes exactly on a consistent hazard; otherwise raises
      the first violated requirement, whose sizes differ. */
  function Check(h: Hazard): (r: Outcome<SizeError>)
    ensures r.Pass? <==> Consistent(h)
    ensures r.Fail? ==> r.error.expected != r.error.actual
    ensures r.Fail? && !CentroidsConsistent(h.centroids) ==> r == CheckCentroids(h.centroids)
  {
    var checks := HazardChecks(h);
    HazardChecksHold(h);
    if !CentroidsConsistent(h.centroids) then
      if |h.centroids.regionId| != |h.centroids.id| then
        ValidateReportsFirst(checks, 0);
        Validate(checks)
      else
        ValidateReportsFirst(checks, 1);
        Validate(checks)
    else
      Validate(checks)
  }

  /** Where the matrix requirements start in the checking order. */
  function MatrixChecksStart(h: Hazard): nat {
    if |h.eventName| == 0 then 3 else 4
  }

  /** In a consistent hazard, a wrong number of region ids is reported as
      that field, against the id count. */
  lemma CheckWrongRegionId(h: Hazard, regionId: seq<int>)
    requires Consistent(h) && |regionId| != |h.centroids.id|
    ensures Check(h.(centroids := h.centroids.(regionId := regionId)))
      == Fail(SizeError("Centroids.region_id", |h.centroids.id|, |regionId|))
  {
    var h' := h.(centroids := h.centroids.(regionId := regionId));
    ValidateReportsFirst(HazardChecks(h'), 0);
  }

  /** In a consistent hazard, a wrong number of frequencies is reported as
      that field, against the event count. */
  lemma CheckWrongFrequency(h: Hazard, frequency: seq<real>)
    requires Consistent(h) && |frequency| != |h.eventId|
    ensures Check(h.(frequency := frequency)) == Fail(SizeError("Hazard.frequency", |h.eventId|, |frequency|))
  {
    ValidateReportsFirst(HazardChecks(h.(frequency := frequency)), 2);
  }

  /** In a consistent hazard, a non-empty name list of the wrong length is
      reported as `Hazard.event_name`, against the event count. */
  lemma CheckWrongEventName(h: Hazard, eventName: seq<string>)
    requires Consistent(h) && |eventName| > 0 && |eventName| != |h.eventId|
    ensures Check(h.(eventName := eventName)) == Fail(SizeError("Hazard.event_name", |h.eventId|, |eventName|))
  {
    ValidateReportsFirst(HazardChecks(h.(eventName := eventName)), 3);
  }

  /** In a consistent hazard, an intensity matrix with the wrong number of
      rows is reported as `Hazard.intensity row`, against the event count. */
  lemma CheckWrongIntensityRows(h: Hazard, rows: nat)
    requires Consistent(h) && rows != |h.eventId|
    ensures Check(h.(intensity := h.intensity.(rows := rows)))
      == Fail(SizeError("Hazard.intensity row", |h.eventId|, rows))
  {
    var h' := h.(intensity := h.intensity.(rows := rows));
    ValidateReportsFirst(HazardChecks(h'), MatrixChecksStart(h'));
  }

  /** In a consistent hazard, a fraction matrix with the wrong number of
      columns is reported as `Hazard.fraction column`, against the centroid
      count. */
  lemma CheckWrongFractionColumns(h: Hazard, cols: nat)
    requires Consistent(h) && cols != |h.centroids.id|
    ensures Check(h.(fraction := h.fraction.(cols := cols)))
      == Fail(SizeError("Hazard.fraction column", |h.centroids.id|, cols))
  {
    var h' := h.(fraction := h.fraction.(cols := cols));
    ValidateReportsFirst(HazardChecks(h'), MatrixChecksStart(h') + 3);
  }

  /** The well-formed hazard of three events over two centroids. */
  function GoodHazard(): (h: Hazard)
    ensures Consistent(h)
  {
    Hazard(
      Centroids([1, 2], [1, 2], [(1.0, 2.0), (1.0, 2.0)]),
      [1, 2, 3], ["A", "B", "C"], [1.0, 2.0, 3.0],
      Shape(3, 2), Shape(3, 2))
  }

  lemma GoodHazardPasses()
    ensures Check(GoodHazard()) == Pass
  {
  }

  // The texts of the errors below, as the hazard tests expect them.

  lemma RegionIdText()
    ensures Message(SizeError("Centroids.region_id", 2, 4)) == "Invalid Centroids.region_id size: 2 != 4"
  {
  }

  lemma FrequencyText()
    ensures Message(SizeError("Hazard.frequency", 3, 2)) == "Invalid Hazard.frequency size: 3 != 2"
  {
  }

  lemma IntensityRowText()
    ensures Message(SizeError("Hazard.intensity row", 3, 2)) == "Invalid Hazard.intensity row size: 3 != 2"
  {
  }

  lemma FractionColumnText()
    ensures Message(SizeError("Hazard.fraction column", 2, 1)) == "Invalid Hazard.fraction column size: 2 != 1"
  {
  }

  lemma EventNameText()
    ensures Message(SizeError("Hazard.event_name", 3, 1)) == "Invalid Hazard.event_name size: 3 != 1"
  {
  }

  /** Four region ids for two centroids. */
  lemma WrongCentroidsMessage(h: Hazard)
    requires Consistent(h) && |h.eventId| == 3 && |h.centroids.id| == 2
    ensures
      var r := Check(h.(centroids := h.centroids.(regionId := [1, 2, 3, 4])));
      r.Fail? && Message(r.error) == "Invalid Centroids.region_id size: 2 != 4"
  {
    CheckWrongRegionId(h, [1, 2, 3, 4]);
    RegionIdText();
  }

  /** Two frequencies for three events. */
  lemma WrongFrequencyMessage(h: Hazard)
    requires Consistent(h) && |h.eventId| == 3 && |h.centroids.id| == 2
    ensures
      var r := Check(h.(frequency := [1.0, 2.0]));
      r.Fail? && Message(r.error) == "Invalid Hazard.frequency size: 3 != 2"
  {
    CheckWrongFrequency(h, [1.0, 2.0]);
    FrequencyText();
  }

  /** An intensity matrix with two rows for three events. */
  lemma WrongIntensityMessage(h: Hazard)
    requires Consistent(h) && |h.eventId| == 3 && |h.centroids.id| == 2
    ensures
      var r := Check(h.(intensity := Shape(2, 2)));
      r.Fail? && Message(r.error) == "Invalid Hazard.intensity row size: 3 != 2"
  {
    assert h.intensity.(rows := 2) == Shape(2, 2);
    CheckWrongIntensityRows(h, 2);
    IntensityRowText();
  }

  /** A fraction matrix with one column for two centroids. */
  lemma WrongFractionMessage(h: Hazard)
    requires Consistent(h) && |h.eventId| == 3 && |h.centroids.id| == 2
    ensures
      var r := Check(h.(fraction := Shape(3, 1)));
      r.Fail? && Message(r.error) == "Invalid Hazard.fraction column size: 2 != 1"
  {
    assert h.fraction.(cols := 1) == Shape(3, 1);
    CheckWrongFractionColumns(h, 1);
    FractionColumnText();
  }

  /** One event name for three events. */
  lemma WrongEventNameMessage(h: Hazard)
    requires Consistent(h) && |h.eventId| == 3 && |h.centroids.id| == 2
    ensures
      var r := Check(h.(eventName := ["M"]));
      r.Fail? && Message(r.error) == "Invalid Hazard.event_name size: 3 != 1"
  {
    CheckWrongEventName(h, ["M"]);
    EventNameText();
  }

  // ---------------------------------------------------------------------------
  // File operations of the base class

  /** `load` on the base hazard: always raises the not-implemented signal. */
  function Load(h: Hazard, fileName: string): (r: Result<Hazard, HazardError>)
    ensures r.Failure? && r.error.NotImplemented?
  {
    Failure(NotImplemented("load"))
  }

  /** `read` on the base hazard: always raises the not-implemented signal. */
  function Read(h: Hazard, fileName: string): (r: Result<Hazard, HazardError>)
    ensures r.Failure? && r.error.NotImplemented?
  {
    Failure(NotImplemented("read"))
  }

  /** Constructing the base hazard from a file reads it, so it always raises
      the not-implemented signal too. */
  function FromFile(fileName: string): (r: Result<Hazard, HazardError>)
    ensures r.Failure? && r.error.NotImplemented?
  {
    Read(Hazard(Centroids([], [], []), [], [], [], Shape(0, 0), Shape(0, 0)), fileName)
  }
}
