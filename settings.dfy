/**
 * ApplicationSettings: the server-side settings sent to the web client; here the location of
 * the generated results and the rule that turns it into the location of one job's results.
 */
module Settings {
  import opened Seqs

  /** The location with one trailing '/' removed, if it ends with one. */
  function StripTrailingSlash(location: string): string
  {
    if location != [] && location[|location| - 1] == '/' then location[..|location| - 1] else location
  }

  /**
   * The URL of a job's results under `resultsLocation`: a four-character job id is a PDB id and
   * goes in the "divided" layout, under the directory named by its two middle characters; any
   * other job id (a user job) goes directly under the location.
   */
  function ResultsLocationForJob(resultsLocation: string, jobId: string): string
  {
    var baseUrl := StripTrailingSlash(resultsLocation);
    if |jobId| == 4 then baseUrl + "/" + "divided" + "/" + jobId[1..3] + "/" + jobId
    else baseUrl + "/" + jobId
  }

  /** At most one '/' is removed, and only a trailing one: the stripped base is a prefix of the location. */
  lemma StripRemovesOneSlash(location: string)
    ensures var b := StripTrailingSlash(location);
            && b == location[..|b|]
            && |location| - 1 <= |b| <= |location|
            && (|b| < |location| <==> location != [] && location[|location| - 1] == '/')
    ensures |location| >= 2 && location[|location| - 2..] == "//" ==> StripTrailingSlash(location) == location[..|location| - 1]
  {
    if |location| >= 2 && location[|location| - 2..] == "//" {
      assert location[|location| - 1] == location[|location| - 2..][1];
    }
  }

  /** The result begins with the stripped location and ends with "/" and the job id. */
  lemma LocationShape(resultsLocation: string, jobId: string)
    ensures var b, r := StripTrailingSlash(resultsLocation), ResultsLocationForJob(resultsLocation, jobId);
            && |r| >= |b| + 1 + |jobId|
            && r[..|b|] == b
            && r[|r| - |jobId| - 1..] == "/" + jobId
  {
  }

  /**
   * A PDB id's results lie in the divided directory of its middle characters, which has the same
   * name for every PDB id sharing them.
   */
  lemma DividedLayout(resultsLocation: string, pdbId: string, other: string)
    requires |pdbId| == 4 && |other| == 4 && pdbId[1..3] == other[1..3]
    ensures var r, s := ResultsLocationForJob(resultsLocation, pdbId), ResultsLocationForJob(resultsLocation, other);
            && r[..|r| - 4] == s[..|s| - 4]
            && r[..|r| - 4] == StripTrailingSlash(resultsLocation) + "/divided/" + pdbId[1..3] + "/"
  {
  }

  /** Job ids of the same length never share a location. */
  lemma SameLengthDistinct(resultsLocation: string, j1: string, j2: string)
    requires |j1| == |j2| && j1 != j2
    ensures ResultsLocationForJob(resultsLocation, j1) != ResultsLocationForJob(resultsLocation, j2)
  {
    var r1, r2 := ResultsLocationForJob(resultsLocation, j1), ResultsLocationForJob(resultsLocation, j2);
    LocationShape(resultsLocation, j1);
    LocationShape(resultsLocation, j2);
    assert r1[|r1| - |j1|..] == j1 && r2[|r2| - |j2|..] == j2;
  }

  /**
   * Only the length of the job id selects the layout and its content is never checked: the user
   * job "divided/bc/abcd" gets the location of the PDB id "abcd".
   */
  lemma LayoutsCollide(resultsLocation: string)
    ensures ResultsLocationForJob(resultsLocation, "abcd") == ResultsLocationForJob(resultsLocation, "divided/bc/abcd")
  {
    assert "abcd"[1..3] == "bc";
  }

  class ApplicationSettings {
    /** Where generated files are stored; null until it is set. */
    var resultsLocation: Option<string>

    constructor()
      ensures resultsLocation == None
    {
      resultsLocation := None;
    }

    /** setResultsLocation: getResultsLocation returns the new value; nothing else changes. */
    method SetResultsLocation(resultsLocation: Option<string>)
      modifies this`resultsLocation
      ensures this.resultsLocation == resultsLocation
      ensures GetResultsLocation() == resultsLocation
    {
      this.resultsLocation := resultsLocation;
    }

    function GetResultsLocation(): Option<string>
      reads this
    {
      resultsLocation
    }

    /**
     * getResultsLocationForJob: the location of the job's results; a null results location
     * (`endsWith` on null) is an error.
     */
    method GetResultsLocationForJob(jobId: string) returns (r: Result<string>)
      ensures r.Failure? <==> resultsLocation.None?
      ensures r.Success? ==> r.value == ResultsLocationForJob(resultsLocation.value, jobId)
    {
      if resultsLocation.None? {
        return Failure;
      }
      var baseUrl := resultsLocation.value;
      if baseUrl != [] && baseUrl[|baseUrl| - 1] == '/' {
        baseUrl := baseUrl[..|baseUrl| - 1];
      }
      if |jobId| == 4 {
        var midPdbIndex := jobId[1..3];
        r := Success(baseUrl + "/" + "divided" + "/" + midPdbIndex + "/" + jobId);
      } else {
        r := Success(baseUrl + "/" + jobId);
      }
    }
  }
}
