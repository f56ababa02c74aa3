/**
 * One page of the Adzuna job search (extraction/api_extraction.py): the
 * request URL and parameters, and the flattening of the `results` array of
 * a successful response into job records. The HTTP GET and the
 * credentials read from the environment are parameters.
 */
module ApiExtraction {
  import opened Wrappers
  import opened Text

  // ---------------------------------------------------------------------
  // Request
  // ---------------------------------------------------------------------

  const SearchBase: string := "https://api.adzuna.com/v1/api/jobs/gb/search/"

  /** The search endpoint for one page: the base path followed by the page number. */
  function SearchUrl(pageNumber: int): (url: string)
    ensures |url| > |SearchBase| && url[..|SearchBase|] == SearchBase
  {
    SearchBase + IntToString(pageNumber)
  }

  /** The page number can be read back from the URL, so different pages use different URLs. */
  lemma SearchUrlPage(pageNumber: int)
    ensures var page := SearchUrl(pageNumber)[|SearchBase|..];
            |page| >= 1 && (page[0] == '-' || IsDigit(page[0])) && (forall i :: 1 <= i < |page| ==> IsDigit(page[i]))
            && ParseInt(page) == pageNumber
  {
    IntToStringRoundTrip(pageNumber);
    assert SearchUrl(pageNumber)[|SearchBase|..] == IntToString(pageNumber);
  }

  /** A query parameter: a string (`None` when the environment variable is unset) or an integer. */
  datatype ParamValue = StrParam(s: Option<string>) | IntParam(n: int)

  /** `if max_days_old:` for an optional integer: set and non-zero. */
  predicate Truthy(maxDaysOld: Option<int>) {
    maxDaysOld.Some? && maxDaysOld.value != 0
  }

  /**
   * The query parameters: the credentials, 50 results per page and the
   * search term, plus `max_days_old` only when it is set and non-zero.
   */
  function SearchParams(appId: Option<string>, appKey: Option<string>, maxDaysOld: Option<int>)
    : (params: map<string, ParamValue>)
    ensures params.Keys == {"app_id", "app_key", "results_per_page", "what"} + (if Truthy(maxDaysOld) then {"max_days_old"} else {})
    ensures params["app_id"] == StrParam(appId) && params["app_key"] == StrParam(appKey)
    ensures params["results_per_page"] == StrParam(Some("50"))
    ensures params["what"] == StrParam(Some("Data Engineer"))
    ensures "max_days_old" in params ==> params["max_days_old"] == IntParam(maxDaysOld.value)
  {
    var base := BaseParams(appId, appKey);
    if Truthy(maxDaysOld) then base["max_days_old" := IntParam(maxDaysOld.value)] else base
  }

  /** The parameters every request carries. */
  function BaseParams(appId: Option<string>, appKey: Option<string>): (params: map<string, ParamValue>)
    ensures "max_days_old" !in params
  {
    map["app_id" := StrParam(appId), "app_key" := StrParam(appKey),
        "results_per_page" := StrParam(Some("50")), "what" := StrParam(Some("Data Engineer"))]
  }

  /** A zero age limit is dropped exactly like a missing one. */
  lemma ZeroDaysOmitted(appId: Option<string>, appKey: Option<string>)
    ensures SearchParams(appId, appKey, Some(0)) == SearchParams(appId, appKey, None)
    ensures "max_days_old" !in SearchParams(appId, appKey, Some(0))
  {
  }

  // ---------------------------------------------------------------------
  // Response
  // ---------------------------------------------------------------------

  /** The nested `location` object of a job; `display_name` may be missing. */
  datatype LocationJson = LocationJson(displayName: Option<string>)

  /** One element of `results`; every key may be missing. */
  datatype JobJson = JobJson(
    id: Option<string>,
    title: Option<string>,
    companyName: Option<string>,
    location: Option<LocationJson>,
    description: Option<string>,
    redirectUrl: Option<string>,
    salaryMin: Option<real>,
    salaryMax: Option<real>)

  /** The status code and, when the body has one, its `results` array. */
  datatype HttpResponse = HttpResponse(statusCode: int, results: Option<seq<JobJson>>)

  /** The flat job record handed to the database loader. */
  datatype JobRecord = JobRecord(
    id: Option<string>,
    title: Option<string>,
    description: string,
    company: string,
    location: string,
    salaryMin: Option<real>,
    salaryMax: Option<real>,
    redirectUrl: string)

  /** `data.get('results', [])` */
  function ResultsOf(response: HttpResponse): seq<JobJson> {
    response.results.GetOr([])
  }

  /** `d.get(key, '').strip()` */
  function StrippedOr(v: Option<string>): string {
    Strip(v.GetOr(""))
  }

  /** `job.get('location', {}).get('display_name', '')` */
  function DisplayName(job: JobJson): Option<string> {
    match job.location
    case None => None
    case Some(location) => location.displayName
  }

  /**
   * The record built from one job object: it passes `id`, `title` and the
   * salaries through and holds the cleaned description, company, location
   * display name and redirect URL.
   */
  function ShapeJob(job: JobJson): (r: JobRecord)
    ensures r.id == job.id && r.title == job.title
    ensures r.salaryMin == job.salaryMin && r.salaryMax == job.salaryMax
    ensures CleanedFrom(r.description, job.description)
    ensures CleanedFrom(r.company, job.companyName)
    ensures CleanedFrom(r.location, DisplayName(job))
    ensures CleanedFrom(r.redirectUrl, job.redirectUrl)
  {
    StrippedOrCleaned(job.description);
    StrippedOrCleaned(job.companyName);
    StrippedOrCleaned(DisplayName(job));
    StrippedOrCleaned(job.redirectUrl);
    JobRecord(
      job.id,
      job.title,
      StrippedOr(job.description),
      StrippedOr(job.companyName),
      StrippedOr(DisplayName(job)),
      job.salaryMin,
      job.salaryMax,
      StrippedOr(job.redirectUrl))
  }

  /**
   * A cleaned text field: empty when the key is missing, otherwise the
   * value with the surrounding white space removed and no white space left
   * at either end.
   */
  ghost predicate CleanedFrom(field: string, source: Option<string>) {
    && (source.None? ==> field == "")
    && (source.Some? ==> exists k :: SpaceAround(source.value, field, k))
    && (field == [] || (!IsSpace(field[0]) && !IsSpace(field[|field| - 1])))
  }

  lemma StrippedOrCleaned(v: Option<string>)
    ensures CleanedFrom(StrippedOr(v), v)
  {
    StripSpec(v.GetOr(""));
    if v.None? {
      assert v.GetOr("") == "";
    }
  }

  /** The job object a record would be read back as. */
  function AsJson(r: JobRecord): JobJson {
    JobJson(r.id, r.title, Some(r.company), Some(LocationJson(Some(r.location))),
            Some(r.description), Some(r.redirectUrl), r.salaryMin, r.salaryMax)
  }

  /** Shaping an already shaped record changes nothing: the cleaning is complete in one pass. */
  lemma ShapeJobIdempotent(job: JobJson)
    ensures ShapeJob(AsJson(ShapeJob(job))) == ShapeJob(job)
  {
    StripIdempotent(job.description.GetOr(""));
    StripIdempotent(job.companyName.GetOr(""));
    StripIdempotent(DisplayName(job).GetOr(""));
    StripIdempotent(job.redirectUrl.GetOr(""));
  }

  // ---------------------------------------------------------------------
  // extract_adzuna_data
  // ---------------------------------------------------------------------

  /**
   * `extract_adzuna_data`: requests one page and, on status 200, returns one
   * record per element of `results`, in order (none when `results` is
   * missing); any other status gives `None`.
   */
  method ExtractAdzunaData(pageNumber: int, maxDaysOld: Option<int>, appId: Option<string>, appKey: Option<string>,
                           get: (string, map<string, ParamValue>) -> HttpResponse)
    returns (extracted: Option<seq<JobRecord>>)
    ensures var response := get(SearchUrl(pageNumber), SearchParams(appId, appKey, maxDaysOld));
      && (extracted.None? <==> response.statusCode != 200)
      && (extracted.Some? ==>
            |extracted.value| == |ResultsOf(response)| &&
            forall i :: 0 <= i < |extracted.value| ==> extracted.value[i] == ShapeJob(ResultsOf(response)[i]))
  {
    var url := SearchUrl(pageNumber);
    var params := BuildParams(appId, appKey, maxDaysOld);
    var response := get(url, params);
    if response.statusCode == 200 {
      var extractedData := ShapeResults(ResultsOf(response));
      extracted := Some(extractedData);
    } else {
      extracted := None;
    }
  }

  /** The `params` dictionary, with `max_days_old` added only when it is truthy. */
  method BuildParams(appId: Option<string>, appKey: Option<string>, maxDaysOld: Option<int>)
    returns (params: map<string, ParamValue>)
    ensures params == SearchParams(appId, appKey, maxDaysOld)
  {
    params := BaseParams(appId, appKey);
    if maxDaysOld.Some? && maxDaysOld.value != 0 {
      params := params["max_days_old" := IntParam(maxDaysOld.value)];
    }
  }

  /** The loop over `results`: one shaped record per job, appended in order. */
  method ShapeResults(jobs: seq<JobJson>) returns (extractedData: seq<JobRecord>)
    ensures |extractedData| == |jobs|
    ensures forall i :: 0 <= i < |jobs| ==> extractedData[i] == ShapeJob(jobs[i])
  {
    extractedData := [];
    for j := 0 to |jobs|
      invariant |extractedData| == j
      invariant forall i :: 0 <= i < j ==> extractedData[i] == ShapeJob(jobs[i])
    {
      var jobDetails := ShapeJob(jobs[j]);
      extractedData := extractedData + [jobDetails];
    }
  }
}
