/** `get_specimen`: downloads every requested area (by default every LTLA the
    registry knows) and reshapes the tables into one (dates x areas) table of
    new cases by specimen date. */
module GovUk {
  import opened Frames
  import opened Reshape
  import opened Collector

  /** The covariate get_specimen asks for. */
  const SpecimenCovariate: Column := "newCasesBySpecimenDate"

  /** What get_specimen returns, or which step raises. */
  datatype Specimen =
    | Specimen(table: Wide)
    | DownloadRaised               // get_ltla_data read an unbound `df`
    | ReshapeRaised(error: Error)  // extract_covariate raised

  /** `ltla_list`, or the registry's codes (`get_meta_data().lad19cd`) when it is None. */
  function AreaList(requested: Option<seq<AreaCode>>, registry: seq<AreaCode>): seq<AreaCode>
  {
    match requested
    case Some(areas) => areas
    case None => registry
  }

  /** With the default `max_retry` of 3 every area's loop ends. */
  lemma DefaultRetryEnds(api: Api, n: nat)
    ensures AllEnd(api, n, DefaultMaxRetry)
  {
  }

  ghost function SpecimenOf(api: Api, areas: seq<AreaCode>): Specimen
  {
    DefaultRetryEnds(api, |areas|);
    match Collect(api, areas, DefaultMaxRetry)
    case UnboundDataFrame => DownloadRaised
    case Collected(frames) =>
      match ExtractCovariate(frames, SpecimenCovariate)
      case Err(e) => ReshapeRaised(e)
      case Ok(w) => Specimen(w)
  }

  /** `get_specimen(ltla_list)`; the registry and the API are parameters. */
  method GetSpecimen(requested: Option<seq<AreaCode>>, registry: seq<AreaCode>, api: Api) returns (r: Specimen)
    ensures r == SpecimenOf(api, AreaList(requested, registry))
  {
    var areas := AreaList(requested, registry);
    DefaultRetryEnds(api, |areas|);
    var collected := GetLtlaData(areas, api);
    match collected {
      case UnboundDataFrame =>
        r := DownloadRaised;
      case Collected(frames) =>
        match ExtractCovariate(frames, SpecimenCovariate) {
          case Err(e) => r := ReshapeRaised(e);
          case Ok(w) => r := Specimen(w);
        }
    }
  }

  lemma {:induction false} SurvivorsHaveColumns(api: Api, n: nat, maxRetry: int, i: nat)
    requires i <= n && AllEnd(api, n, maxRetry)
    ensures forall f :: f in Survivors(api, n, maxRetry, i) ==> f.Table?
    decreases n - i
  {
    if i < n {
      SurvivorsHaveColumns(api, n, maxRetry, i + 1);
    }
  }

  /** The frames get_ltla_data collects with the default `max_retry`. */
  ghost function Downloaded(api: Api, areas: seq<AreaCode>): seq<Frame>
  {
    Survivors(api, |areas|, DefaultMaxRetry, 0)
  }

  /** The first area's loop ends without a download, leaving `df` unbound. */
  ghost predicate FirstAreaMissed(api: Api, areas: seq<AreaCode>)
  {
    |areas| > 0 && !Exit(api, 0, DefaultMaxRetry, None).broke
  }

  /** The collector drops every (0, 0) frame, so the reshape never fails for
      want of a `date` column: get_specimen can only fail because the first
      area never downloaded, because nothing was collected, or because a
      collected table lacks the covariate. */
  lemma SpecimenFailures(api: Api, areas: seq<AreaCode>)
    ensures FirstAreaMissed(api, areas) ==> SpecimenOf(api, areas) == DownloadRaised
    ensures !FirstAreaMissed(api, areas) && Downloaded(api, areas) == [] ==>
      SpecimenOf(api, areas) == ReshapeRaised(NoObjectsToConcatenate)
    ensures (!FirstAreaMissed(api, areas) &&
      exists j :: 0 <= j < |Downloaded(api, areas)| && !Usable(Downloaded(api, areas)[j], SpecimenCovariate)) ==>
      SpecimenOf(api, areas) == ReshapeRaised(MissingColumn(SpecimenCovariate))
    ensures (!FirstAreaMissed(api, areas) && Downloaded(api, areas) != [] &&
      forall j :: 0 <= j < |Downloaded(api, areas)| ==> Usable(Downloaded(api, areas)[j], SpecimenCovariate)) ==>
      && ExtractCovariate(Downloaded(api, areas), SpecimenCovariate).Ok?
      && SpecimenOf(api, areas) == Specimen(ExtractCovariate(Downloaded(api, areas), SpecimenCovariate).value)
  {
    DefaultRetryEnds(api, |areas|);
    CollectIsSurvivors(api, areas, DefaultMaxRetry);
    var frames := Survivors(api, |areas|, DefaultMaxRetry, 0);
    SurvivorsHaveColumns(api, |areas|, DefaultMaxRetry, 0);
    ExtractSucceedsIff(frames, SpecimenCovariate);
    if exists j :: 0 <= j < |frames| && !Usable(frames[j], SpecimenCovariate) {
      var j := FirstUnusable(frames, SpecimenCovariate);
      ExtractFirstError(frames, SpecimenCovariate, j);
    }
  }
}
