/**
 * Resolving the configuration, from the two captures of the repository URL on: the host
 * and the repository path. The URL pattern itself, the configuration file and the command
 * line are outside this model; the two probe requests are oracles that answer with the id
 * of the project or group found, or nothing.
 */
module Configuration {
  import opened Wrappers
  import opened Text
  import PercentEncoding

  /** The configuration file as read. */
  datatype ConfFile = ConfFile(
    url: string,
    token: string,
    milestones: seq<string>,
    parameters: seq<(string, string)>,
    output: string)

  /** The resolved configuration: `path` is the API endpoint of the project or group. */
  datatype Config = Config(
    baseUrl: string,
    token: string,
    path: string,
    parameters: seq<(string, string)>,
    output: string)

  datatype ConfigError = NoProjectOrGroup

  /** One `("milestone", m)` query pair per milestone, in milestone order. */
  function MilestonePairs(milestones: seq<string>): (r: seq<(string, string)>)
    ensures |r| == |milestones|
    ensures forall i :: 0 <= i < |r| ==> r[i] == ("milestone", milestones[i])
  {
    if |milestones| == 0 then []
    else MilestonePairs(milestones[..|milestones| - 1]) + [("milestone", milestones[|milestones| - 1])]
  }

  /** The configured query pairs followed by the milestone pairs. */
  function MergeParameters(parameters: seq<(string, string)>, milestones: seq<string>): (r: seq<(string, string)>)
    ensures |r| == |parameters| + |milestones|
    ensures r[..|parameters|] == parameters
    ensures forall i :: 0 <= i < |milestones| ==> r[|parameters| + i] == ("milestone", milestones[i])
  {
    parameters + MilestonePairs(milestones)
  }

  /** `https://<host>/api/v4/<kind>/<encoded path>`, the URL a probe asks for. */
  function ProbeUrl(host: string, kind: string, encodedPath: string): (r: string)
    ensures |r| == |host| + |kind| + |encodedPath| + 17
    ensures r[..8] == "https://" && r[8..8 + |host|] == host
    ensures |r| > |encodedPath| && r[|r| - |encodedPath|..] == encodedPath && r[|r| - |encodedPath| - 1] == '/'
  {
    "https://" + host + "/api/v4/" + kind + "/" + encodedPath
  }

  /**
   * `Config::get` after the URL captures: merge the parameters, percent-encode the path and
   * ask first for a project, then for a group, with that path; the endpoint is
   * `projects/<id>` or `groups/<id>`, and when neither is found there is no configuration.
   */
  function Resolve(file: ConfFile, host: string, capturedPath: string,
                   projectProbe: string -> Option<nat>, groupProbe: string -> Option<nat>): (r: Result<Config, ConfigError>)
    ensures r.Ok? ==>
      r.value.baseUrl == host && r.value.token == file.token && r.value.output == file.output
      && r.value.parameters == MergeParameters(file.parameters, file.milestones)
    ensures r.Err? <==>
      projectProbe(ProbeUrl(host, "projects", PercentEncoding.PercentEncode(capturedPath))).None?
      && groupProbe(ProbeUrl(host, "groups", PercentEncoding.PercentEncode(capturedPath))).None?
  {
    var params := MergeParameters(file.parameters, file.milestones);
    var baseUrl := host;
    var path := PercentEncoding.PercentEncode(capturedPath);
    var location :=
      match projectProbe(ProbeUrl(baseUrl, "projects", path))
      case Some(id) => Some("projects/" + NatToString(id))
      case None =>
        match groupProbe(ProbeUrl(baseUrl, "groups", path))
        case Some(id) => Some("groups/" + NatToString(id))
        case None => None;
    match location
    case None => Err(NoProjectOrGroup)
    case Some(loc) => Ok(Config(baseUrl, file.token, loc, params, file.output))
  }

  /** When the project probe finds a project, the endpoint is that project and the group probe does not matter. */
  lemma ProjectFirst(file: ConfFile, host: string, capturedPath: string,
                     projectProbe: string -> Option<nat>, groupProbe: string -> Option<nat>, otherGroupProbe: string -> Option<nat>)
    requires projectProbe(ProbeUrl(host, "projects", PercentEncoding.PercentEncode(capturedPath))).Some?
    ensures var id := projectProbe(ProbeUrl(host, "projects", PercentEncoding.PercentEncode(capturedPath))).value;
      Resolve(file, host, capturedPath, projectProbe, groupProbe).Ok?
      && Resolve(file, host, capturedPath, projectProbe, groupProbe).value.path == "projects/" + NatToString(id)
      && Resolve(file, host, capturedPath, projectProbe, groupProbe) == Resolve(file, host, capturedPath, projectProbe, otherGroupProbe)
  {
  }

  /** Otherwise a group found by the group probe gives a group endpoint. */
  lemma GroupFallback(file: ConfFile, host: string, capturedPath: string,
                      projectProbe: string -> Option<nat>, groupProbe: string -> Option<nat>)
    requires projectProbe(ProbeUrl(host, "projects", PercentEncoding.PercentEncode(capturedPath))).None?
    requires groupProbe(ProbeUrl(host, "groups", PercentEncoding.PercentEncode(capturedPath))).Some?
    ensures var id := groupProbe(ProbeUrl(host, "groups", PercentEncoding.PercentEncode(capturedPath))).value;
      Resolve(file, host, capturedPath, projectProbe, groupProbe).Ok?
      && Resolve(file, host, capturedPath, projectProbe, groupProbe).value.path == "groups/" + NatToString(id)
  {
  }

  /**
   * The encoded path is one segment of the probe URL: the text after its last `/` is the
   * encoded path, and decoding it gives the captured path back.
   */
  lemma ProbePathIsOneSegment(host: string, kind: string, capturedPath: string)
    ensures var encoded := PercentEncoding.PercentEncode(capturedPath);
      var parts := Split(ProbeUrl(host, kind, encoded), '/');
      parts[|parts| - 1] == encoded
      && PercentEncoding.PercentDecode(encoded).Some?
      && PercentEncoding.Utf8Decode(PercentEncoding.PercentDecode(encoded).value) == Some(capturedPath)
  {
    var encoded := PercentEncoding.PercentEncode(capturedPath);
    PercentEncoding.PathRoundTrip(capturedPath);
    var front := "https://" + host + "/api/v4/" + kind;
    ProbeUrlShape(host, kind, encoded);
    SplitLastAfterSep(front, encoded, '/');
  }

  lemma ProbeUrlShape(host: string, kind: string, encodedPath: string)
    ensures ProbeUrl(host, kind, encodedPath) == ("https://" + host + "/api/v4/" + kind) + ['/'] + encodedPath
  {
  }

  /** `Config::parameters`: the stored pairs, in order, as borrowed pairs. */
  function Parameters(c: Config): (r: seq<(string, string)>)
    ensures r == c.parameters
  {
    seq(|c.parameters|, i requires 0 <= i < |c.parameters| => (c.parameters[i].0, c.parameters[i].1))
  }
}
