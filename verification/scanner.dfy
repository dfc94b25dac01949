/** `XSStrikeEngine.scan`: test every query parameter, then every POST
    parameter, and total up the findings. */
module Scanner {
  import opened Seqs
  import opened OrderedDict
  import opened Params
  import opened Payloads
  import opened Reports
  import opened Detector

  /** The parts of `urlparse(target)` the scan reads. Computing them from the
      URL text is left to the caller. */
  datatype UrlParts = UrlParts(scheme: string, netloc: string, path: string, query: string)

  /** The configuration entries `scan` reads; the engine ignores the others. */
  datatype ScanConfig = ScanConfig(target: string, paramData: string)

  /** The returned `results` together with every line sent to `log_callback`. */
  datatype ScanRun = ScanRun(result: ScanResult, events: seq<Event>)

  /** Reference: the findings that testing `names` in turn must produce —
      one per name, in order, on a suspicious target, and none otherwise. */
  function Expected(target: string, names: seq<string>, verb: Method): seq<Vulnerability>
  {
    if LooksVulnerable(target) then seq(|names|, i requires 0 <= i < |names| => Finding(names[i], verb))
    else []
  }

  /** One iteration of a `for param_name in params` loop. */
  function TestOne(target: string, name: string, verb: Method, acc: ScanRun): ScanRun
  {
    var probe := TestParameter(target, name, verb);
    var found := probe.findings;
    var before := acc.result;
    var after := ScanResult(
      before.vulnerabilities + found,
      before.tested + |Catalog|,
      if found != [] then before.reflected + |found| else before.reflected);
    var verdict :=
      if found != [] then Event(Success, VulnerableParameter(name, verb))
      else Event(Info, SafeParameter(name, verb));
    ScanRun(after, acc.events + [Event(Info, TestingParameter(name, verb))] + probe.events + [verdict, Event(Info, Blank)])
  }

  /** The whole loop over `names`, folding into the running `results`. Every
      name adds the full catalog size to `tested`, however few payloads the
      probe tried. */
  function TestAll(target: string, names: seq<string>, verb: Method, acc: ScanRun): (r: ScanRun)
    ensures r.result.tested == acc.result.tested + 20 * |names|
    ensures r.result.vulnerabilities == acc.result.vulnerabilities + Expected(target, names, verb)
    ensures r.result.reflected == acc.result.reflected + |Expected(target, names, verb)|
    ensures CountLevel(r.events, Error) == CountLevel(acc.events, Error) + |Expected(target, names, verb)|
    decreases |names|
  {
    if |names| == 0 then acc
    else
      var next := TestOne(target, names[0], verb, acc);
      var r := TestAll(target, names[1..], verb, next);
      ExpectedCons(target, names, verb);
      CountTestOne(target, names[0], verb, acc);
      TestOneTotals(target, names[0], verb, acc);
      r
  }

  /** One iteration charges the catalog to `tested` and appends the probe's
      findings, counting them in `reflected`. */
  lemma TestOneTotals(target: string, name: string, verb: Method, acc: ScanRun)
    ensures TestOne(target, name, verb, acc).result.tested == acc.result.tested + 20
    ensures TestOne(target, name, verb, acc).result.vulnerabilities
         == acc.result.vulnerabilities + TestParameter(target, name, verb).findings
    ensures TestOne(target, name, verb, acc).result.reflected
         == acc.result.reflected + |TestParameter(target, name, verb).findings|
  {
  }

  lemma ExpectedCons(target: string, names: seq<string>, verb: Method)
    requires |names| > 0
    ensures Expected(target, names, verb) == TestParameter(target, names[0], verb).findings + Expected(target, names[1..], verb)
  {
  }

  lemma CountTestOne(target: string, name: string, verb: Method, acc: ScanRun)
    ensures CountLevel(TestOne(target, name, verb, acc).events, Error)
         == CountLevel(acc.events, Error) + |TestParameter(target, name, verb).findings|
  {
    var probe := TestParameter(target, name, verb);
    var verdict :=
      if probe.findings != [] then Event(Success, VulnerableParameter(name, verb))
      else Event(Info, SafeParameter(name, verb));
    var head := acc.events + [Event(Info, TestingParameter(name, verb))];
    CountLevelAppend(acc.events, [Event(Info, TestingParameter(name, verb))], Error);
    CountLevelAppend(head, probe.events, Error);
    CountLevelAppend(head + probe.events, [verdict, Event(Info, Blank)], Error);
  }

  /** The block of `scan` that tests the parameters of one source: the URL
      query with `GET`, or the POST body with `POST`. An empty source tests
      nothing; an empty query also logs a warning. */
  function TestSource(target: string, data: string, verb: Method, acc: ScanRun): (r: ScanRun)
    ensures r.result.tested == acc.result.tested + 20 * |ParseParams(data)|
    ensures r.result.vulnerabilities == acc.result.vulnerabilities + Expected(target, Keys(ParseParams(data)), verb)
    ensures r.result.reflected == acc.result.reflected + |Expected(target, Keys(ParseParams(data)), verb)|
    ensures CountLevel(r.events, Error) == CountLevel(acc.events, Error) + |Expected(target, Keys(ParseParams(data)), verb)|
  {
    if data != "" then
      var params := ParseParams(data);
      var header := Header(data, |params|, verb);
      HeaderHasNoError(acc.events, data, |params|, verb);
      TestAll(target, Keys(params), verb, ScanRun(acc.result, acc.events + header))
    else if verb == GET then
      CountLevelAppend(acc.events, [Event(Warning, NoQueryParameters)], Error);
      CountLevelAbsent([Event(Warning, NoQueryParameters)], Error);
      ScanRun(acc.result, acc.events + [Event(Warning, NoQueryParameters)])
    else
      acc
  }

  /** The lines announcing a non-empty source and its parameter count. */
  function Header(data: string, count: nat, verb: Method): seq<Event>
  {
    if verb == GET then [Event(Info, QueryDetected(data)), Event(Info, ParameterCount(count, GET)), Event(Info, Blank)]
    else [Event(Info, TestingPost), Event(Info, ParameterCount(count, POST)), Event(Info, Blank)]
  }

  lemma HeaderHasNoError(events: seq<Event>, data: string, count: nat, verb: Method)
    ensures CountLevel(events + Header(data, count, verb), Error) == CountLevel(events, Error)
  {
    CountLevelAppend(events, Header(data, count, verb), Error);
    CountLevelAbsent(Header(data, count, verb), Error);
  }

  /** The closing summary lines. */
  function Summary(result: ScanResult): seq<Event>
  {
    var found := |result.vulnerabilities|;
    [ Event(Info, Rule), Event(Info, SummaryTitle), Event(Info, Rule),
      Event(Info, TotalTested(result.tested)),
      Event(Info, ReflectionsDetected(result.reflected)),
      Event(if found > 0 then Warning else Success, VulnerabilitiesFound(found)) ]
  }

  const Opening: seq<Event> := [Event(Info, StartingDetection), Event(Info, Blank)]

  /** `scan(config, log_callback)` with `url` standing for `urlparse(config['target'])`.
      Without a scheme the scan logs an error and returns empty totals.
      Otherwise `tested` charges the whole catalog for every distinct query
      and POST parameter, `reflected` counts the findings, the findings follow
      the query parameters then the POST parameters. */
  function Scan(config: ScanConfig, url: UrlParts): (r: ScanRun)
    ensures url.scheme == "" ==> r.result == ScanResult([], 0, 0)
    ensures url.scheme == "" ==> r.events == Opening + [Event(Error, MissingScheme)]
    ensures url.scheme != "" ==>
      r.result.tested == 20 * (|ParseParams(url.query)| + |ParseParams(config.paramData)|)
    ensures url.scheme != "" ==>
      r.result.vulnerabilities
        == Expected(config.target, Keys(ParseParams(url.query)), GET)
         + Expected(config.target, Keys(ParseParams(config.paramData)), POST)
    ensures url.scheme != "" ==> r.result.reflected == |r.result.vulnerabilities|
  {
    if url.scheme == "" then
      ScanRun(ScanResult([], 0, 0), Opening + [Event(Error, MissingScheme)])
    else
      var start := ScanRun(ScanResult([], 0, 0),
        Opening + [Event(Info, TargetHost(url.netloc)), Event(Info, TargetPath(url.path))]);
      var afterQuery := TestSource(config.target, url.query, GET, start);
      assert afterQuery.result.vulnerabilities == Expected(config.target, Keys(ParseParams(url.query)), GET);
      var afterPost := TestSource(config.target, config.paramData, POST, afterQuery);
      ScanRun(afterPost.result, afterPost.events + Summary(afterPost.result))
  }

  /** Every error-level log line of a scan with a scheme is a confirmed
      finding, and every finding is logged at error level once. */
  lemma ScanLogsOneErrorPerFinding(config: ScanConfig, url: UrlParts)
    requires url.scheme != ""
    ensures CountLevel(Scan(config, url).events, Error) == |Scan(config, url).result.vulnerabilities|
  {
    var start := ScanRun(ScanResult([], 0, 0),
      Opening + [Event(Info, TargetHost(url.netloc)), Event(Info, TargetPath(url.path))]);
    var afterQuery := TestSource(config.target, url.query, GET, start);
    var afterPost := TestSource(config.target, config.paramData, POST, afterQuery);
    ScanUnfolds(config, url);
    OpeningHasNoError(url);
    SummaryAddsNoError(afterPost);
  }

  /** The steps of a scan of a target with a scheme. */
  lemma ScanUnfolds(config: ScanConfig, url: UrlParts)
    requires url.scheme != ""
    ensures var start := ScanRun(ScanResult([], 0, 0),
              Opening + [Event(Info, TargetHost(url.netloc)), Event(Info, TargetPath(url.path))]);
            var afterQuery := TestSource(config.target, url.query, GET, start);
            var afterPost := TestSource(config.target, config.paramData, POST, afterQuery);
            Scan(config, url) == ScanRun(afterPost.result, afterPost.events + Summary(afterPost.result))
  {
  }

  lemma OpeningHasNoError(url: UrlParts)
    ensures CountLevel(Opening + [Event(Info, TargetHost(url.netloc)), Event(Info, TargetPath(url.path))], Error) == 0
  {
    var events := Opening + [Event(Info, TargetHost(url.netloc)), Event(Info, TargetPath(url.path))];
    assert events == [Event(Info, StartingDetection), Event(Info, Blank), Event(Info, TargetHost(url.netloc)), Event(Info, TargetPath(url.path))];
    CountLevelAbsent(events, Error);
  }

  lemma SummaryAddsNoError(run: ScanRun)
    ensures CountLevel(run.events + Summary(run.result), Error) == CountLevel(run.events, Error)
  {
    CountLevelAppend(run.events, Summary(run.result), Error);
    CountLevelAbsent(Summary(run.result), Error);
  }

  /** The findings of a scan with a scheme: one per distinct query name and
      per distinct POST name on a suspicious target, none otherwise; each
      names a parameter of its own source, query findings come first, and no
      (source, name) pair is reported twice. */
  lemma ScanFindingsShape(config: ScanConfig, url: UrlParts)
    requires url.scheme != ""
    ensures var vs := Scan(config, url).result.vulnerabilities;
      |vs| == if LooksVulnerable(config.target) then |ParseParams(url.query)| + |ParseParams(config.paramData)| else 0
    ensures FindingsWellFormed(Scan(config, url).result.vulnerabilities,
      Keys(ParseParams(url.query)), Keys(ParseParams(config.paramData)))
  {
    var query := Keys(ParseParams(url.query));
    var post := Keys(ParseParams(config.paramData));
    ExpectedWellFormed(config.target, query, post);
  }

  /** Findings are all reflected-XSS records built from the first payload at
      high confidence; GET ones name a query parameter, POST ones a body
      parameter; all GET findings precede all POST findings; and no
      (method, parameter) pair occurs twice. */
  predicate FindingsWellFormed(vs: seq<Vulnerability>, query: seq<string>, post: seq<string>)
  {
    && (forall i :: 0 <= i < |vs| ==>
          && vs[i].kind == ReflectedXss && vs[i].payload == Catalog[0] && vs[i].confidence == High
          && (vs[i].httpMethod == GET ==> vs[i].parameter in query)
          && (vs[i].httpMethod == POST ==> vs[i].parameter in post))
    && (forall i, j :: 0 <= i < j < |vs| && vs[j].httpMethod == GET ==> vs[i].httpMethod == GET)
    && (forall i, j :: 0 <= i < j < |vs| && vs[i].httpMethod == vs[j].httpMethod ==> vs[i].parameter != vs[j].parameter)
  }

  lemma ExpectedWellFormed(target: string, query: seq<string>, post: seq<string>)
    requires Distinct(query) && Distinct(post)
    ensures FindingsWellFormed(Expected(target, query, GET) + Expected(target, post, POST), query, post)
  {
    var eq := Expected(target, query, GET);
    var ep := Expected(target, post, POST);
    var vs := eq + ep;
    if LooksVulnerable(target) {
      forall i | 0 <= i < |vs|
        ensures vs[i].httpMethod == GET <==> i < |query|
        ensures i < |query| ==> vs[i] == Finding(query[i], GET)
        ensures |query| <= i ==> vs[i] == Finding(post[i - |query|], POST)
      {
      }
    }
  }
}
