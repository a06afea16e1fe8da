/** The report generator: options are overlaid on the defaults, the `{name, metadata}` payload is
    serialised and compressed, embedded in an inline script together with the viewer, and the script
    and title are filled into the HTML template, which is written to the resolved `outputFile`. The
    entry point either does this at once (metadata given) or returns a bundler plugin that does it
    when a build ends. */
module Report {
  import opened Wrappers
  import opened Js
  import opened Strings

  const TitlePlaceholder: string := "{title}"
  const ContentPlaceholder: string := "{content}"
  const PluginName: string := "metadata-report"

  /** What the generator takes from outside the model: the default options object, the text of the
      prebuilt viewer and of the HTML template (both read from disk), the JSON serialiser (`None`
      where `JSON.stringify` throws, as on a `BigInt` or a cycle), the compressor, and
      `path.resolve` against the working directory. */
  datatype Host = Host(
    defaults: Object,
    viewer: string,
    template: string,
    stringify: Object -> Option<string>,
    deflate: string -> string,
    resolve: string -> string)

  /** `{...defaults, ...options}`: every key the caller supplies, even with the value `undefined`,
      takes the caller's value; every other key keeps its default. */
  function MergeOptions(defaults: Object, options: Object): (merged: Object)
    ensures merged.Keys == defaults.Keys + options.Keys
    ensures forall k :: k in options ==> merged[k] == options[k]
    ensures forall k :: k in defaults && k !in options ==> merged[k] == defaults[k]
  {
    defaults + options
  }

  /** The embedded payload: exactly `name` and `metadata`, read from the options (a missing one is
      present with the value `undefined`), and nothing derived. */
  function ReportData(options: Object): (data: Object)
    ensures data.Keys == {"name", "metadata"}
    ensures data["name"] == Get(options, "name")
    ensures data["metadata"] == Get(options, "metadata")
  {
    map["name" := Get(options, "name"), "metadata" := Get(options, "metadata")]
  }

  /** The compressed, serialised payload, or `None` when serialising throws. Serialiser and
      compressor are foreign, so nothing is claimed about the text they produce. */
  function EncodedPayload(options: Object, host: Host): Option<string> {
    match host.stringify(ReportData(options))
    case Some(json) => Some(host.deflate(json))
    case None => None
  }

  /** The line that hands the payload to the viewer. The encoded text goes between single quotes
      as it is, without escaping. */
  function AssignmentLine(encoded: string): string {
    "window.reportData = '" + encoded + "';"
  }

  /** The inline script: its opening tag, the payload assignment, the viewer and the closing tag,
      joined with newlines in that order. */
  function ScriptBlock(encoded: string, viewer: string): (script: string)
    ensures script == "<script>" + "\n" + "window.reportData = '" + encoded + "';" + "\n" + viewer + "\n" + "</script>"
  {
    var lines := ["<script>", AssignmentLine(encoded), viewer, "</script>"];
    assert lines[1..] == [AssignmentLine(encoded), viewer, "</script>"];
    assert lines[1..][1..] == [viewer, "</script>"];
    assert lines[1..][1..][1..] == ["</script>"];
    assert Join(lines[1..][1..], "\n") == viewer + "\n" + "</script>";
    assert Join(lines[1..], "\n") == AssignmentLine(encoded) + "\n" + (viewer + "\n" + "</script>");
    Join(lines, "\n")
  }

  /** The encoded payload appears in the script verbatim, right after the opening quote. */
  lemma {:induction false} PayloadEmbeddedVerbatim(encoded: string, viewer: string)
    ensures var start := |"<script>" + "\n" + "window.reportData = '"|;
      ScriptBlock(encoded, viewer)[start..start + |encoded|] == encoded
  {
    var head := "<script>" + "\n" + "window.reportData = '";
    var tail := "';" + "\n" + viewer + "\n" + "</script>";
    assert ScriptBlock(encoded, viewer) == head + encoded + tail;
  }

  /** The script adds no `$` of its own: only the payload and the viewer can bring one in. */
  lemma {:induction false} ScriptBlockDollarFree(encoded: string, viewer: string)
    requires '$' !in encoded && '$' !in viewer
    ensures '$' !in ScriptBlock(encoded, viewer)
  {
    var s1 := "<script>" + "\n" + "window.reportData = '" + encoded;
    var s2 := s1 + "';" + "\n" + viewer;
    assert '$' !in s1;
    assert '$' !in s2;
    assert ScriptBlock(encoded, viewer) == s2 + "\n" + "</script>";
  }

  /** `template.replace('{title}', title).replace('{content}', content)`: the `{content}` search runs
      on the text after the title is in. */
  function FillTemplate(template: string, title: string, content: string): (r: string)
    ensures !Contains(template, TitlePlaceholder) ==> r == ReplaceFirst(template, ContentPlaceholder, content)
    ensures !Contains(template, TitlePlaceholder) && !Contains(template, ContentPlaceholder) ==> r == template
  {
    ReplaceFirst(ReplaceFirst(template, TitlePlaceholder, title), ContentPlaceholder, content)
  }

  /** With one `{title}` before one `{content}` and `$`-free replacements that bring no new
      `{content}` in front of the template's own, title and content land exactly in the two
      placeholders and the rest of the template is kept. */
  lemma {:induction false} FillTemplateSlots(prefix: string, middle: string, suffix: string, title: string, content: string)
    requires !Contains(prefix, TitlePlaceholder)
    requires !Contains(prefix + title + middle, ContentPlaceholder)
    requires '$' !in title && '$' !in content
    ensures FillTemplate(prefix + TitlePlaceholder + middle + ContentPlaceholder + suffix, title, content)
         == prefix + title + middle + content + suffix
  {
    PlaceholdersStartUniquely();
    var rest := middle + ContentPlaceholder + suffix;
    assert prefix + TitlePlaceholder + middle + ContentPlaceholder + suffix == prefix + TitlePlaceholder + rest;
    ReplaceFirstAt(prefix, TitlePlaceholder, rest, title);
    assert prefix + title + rest == (prefix + title + middle) + ContentPlaceholder + suffix;
    ReplaceFirstAt(prefix + title + middle, ContentPlaceholder, suffix, content);
  }

  /** A title that itself holds `{content}` catches the content: the script is spliced into the
      title, and the template's own `{content}` placeholder stays in the page. */
  lemma {:induction false} ContentSplicedIntoTitle(prefix: string, rest: string, before: string, after: string, content: string)
    requires !Contains(prefix, TitlePlaceholder)
    requires !Contains(prefix + before, ContentPlaceholder)
    requires '$' !in before + ContentPlaceholder + after && '$' !in content
    ensures FillTemplate(prefix + TitlePlaceholder + rest, before + ContentPlaceholder + after, content)
         == prefix + before + content + after + rest
  {
    PlaceholdersStartUniquely();
    var title := before + ContentPlaceholder + after;
    ReplaceFirstAt(prefix, TitlePlaceholder, rest, title);
    assert prefix + title + rest == (prefix + before) + ContentPlaceholder + (after + rest);
    ReplaceFirstAt(prefix + before, ContentPlaceholder, after + rest, content);
  }

  /** `replace` reads `$&` in the content as "the matched text": a viewer holding `$&` gets the
      placeholder `{content}` put back in its place. */
  lemma {:induction false} DollarPatternInContent(prefix: string, suffix: string, a: string, b: string)
    requires !Contains(prefix, ContentPlaceholder)
    requires '$' !in a && '$' !in b
    ensures ReplaceFirst(prefix + ContentPlaceholder + suffix, ContentPlaceholder, a + "$&" + b)
         == prefix + a + ContentPlaceholder + b + suffix
  {
    PlaceholdersStartUniquely();
    ReplaceFirstAfter(prefix, ContentPlaceholder, suffix, a + "$&" + b);
    SubstituteMatchPattern(a, b, ContentPlaceholder, prefix, suffix);
    Regroup(prefix, a, ContentPlaceholder, b, suffix);
  }

  /** Both placeholders open with a `{` that appears nowhere else in them. */
  lemma {:induction false} PlaceholdersStartUniquely()
    ensures 1 <= |TitlePlaceholder| && TitlePlaceholder[0] !in TitlePlaceholder[1..]
    ensures 1 <= |ContentPlaceholder| && ContentPlaceholder[0] !in ContentPlaceholder[1..]
  {
  }

  /** The two throws of `generateReport`: `JSON.stringify` rejecting the payload, and
      `path.resolve` rejecting an `outputFile` that is not a string. */
  datatype Error = EncodingFailed | OutputFileNotString

  /** A generated report: the resolved path, which is both the file written and the value
      returned, and the HTML text written there. */
  datatype Generated = Generated(path: string, html: string)

  /** `generateReport(options)`. Serialising the payload comes first and fails on its own; after
      it, the run fails exactly when the merged `outputFile` is not a string; otherwise the report
      goes to that path resolved. */
  function GenerateReport(options: Object, host: Host): (r: Result<Generated, Error>)
    ensures r == Failure(EncodingFailed) <==> EncodedPayload(MergeOptions(host.defaults, options), host).None?
    ensures r.Success? <==>
      EncodedPayload(MergeOptions(host.defaults, options), host).Some?
      && Get(MergeOptions(host.defaults, options), "outputFile").Str?
    ensures r.Success? ==> r.value.path == host.resolve(Get(MergeOptions(host.defaults, options), "outputFile").s)
  {
    var merged := MergeOptions(host.defaults, options);
    var data := ReportData(merged);
    match EncodedPayload(merged, host)
    case None => Failure(EncodingFailed)
    case Some(encoded) =>
      var script := ScriptBlock(encoded, host.viewer);
      match Get(merged, "outputFile")
      case Str(file) =>
        Success(Generated(host.resolve(file), FillTemplate(host.template, ToJsString(data["name"]), script)))
      case _ => Failure(OutputFileNotString)
  }

  /** The page written is the template filled with the merged name and the inline script. */
  lemma {:induction false} GeneratedHtml(options: Object, host: Host)
    ensures var merged := MergeOptions(host.defaults, options);
      var r := GenerateReport(options, host);
      r.Success? ==>
        r.value.html == FillTemplate(host.template, ToJsString(Get(merged, "name")),
                                     ScriptBlock(EncodedPayload(merged, host).value, host.viewer))
  {
  }

  /** A template with neither placeholder is written as it is, whatever the options. */
  lemma {:induction false} TemplateWithoutPlaceholders(options: Object, host: Host)
    requires !Contains(host.template, TitlePlaceholder) && !Contains(host.template, ContentPlaceholder)
    ensures GenerateReport(options, host).Success? ==> GenerateReport(options, host).value.html == host.template
  {
    GeneratedHtml(options, host);
  }

  /** With a well-formed template, the report page is the template with the merged name as title
      and the inline script (payload assignment, then viewer; see `ScriptBlock`) as content. */
  lemma {:induction false} ReportLayout(options: Object, host: Host, prefix: string, middle: string, suffix: string)
    requires host.template == prefix + TitlePlaceholder + middle + ContentPlaceholder + suffix
    requires !Contains(prefix, TitlePlaceholder)
    requires var title := ToJsString(Get(MergeOptions(host.defaults, options), "name"));
      !Contains(prefix + title + middle, ContentPlaceholder) && '$' !in title
    requires var encoded := EncodedPayload(MergeOptions(host.defaults, options), host);
      encoded.Some? ==> '$' !in encoded.value
    requires '$' !in host.viewer
    ensures var merged := MergeOptions(host.defaults, options);
      var r := GenerateReport(options, host);
      r.Success? ==>
        r.value.html == prefix + ToJsString(Get(merged, "name")) + middle
          + ScriptBlock(EncodedPayload(merged, host).value, host.viewer) + suffix
  {
    var merged := MergeOptions(host.defaults, options);
    var title := ToJsString(Get(merged, "name"));
    if EncodedPayload(merged, host).Some? {
      var encoded := EncodedPayload(merged, host).value;
      var script := ScriptBlock(encoded, host.viewer);
      ScriptBlockDollarFree(encoded, host.viewer);
      GeneratedHtml(options, host);
      FillTemplateSlots(prefix, middle, suffix, title, script);
    }
  }

  /** An explicit `outputFile: undefined` from the caller overrides a default path, and the run
      fails: at `path.resolve` unless serialising failed before it. */
  lemma {:induction false} ExplicitUndefinedOutputFile(options: Object, host: Host)
    requires "outputFile" in options && options["outputFile"] == Undefined
    ensures GenerateReport(options, host).Failure?
    ensures EncodedPayload(MergeOptions(host.defaults, options), host).Some? ==>
      GenerateReport(options, host) == Failure(OutputFileNotString)
  {
  }

  /** What `metadataReport` returns: the report path at once, or the plugin with its `setup`,
      which holds on to the caller's options object. */
  datatype Entry =
    | Direct(result: Result<Generated, Error>)
    | Plugin(name: string, captured: Object)

  /** `metadataReport(options = {})`: truthy `options.metadata` generates the report at once and
      returns its path; anything else returns the plugin named `metadata-report`. */
  function MetadataReport(arg: Option<Object>, host: Host): (e: Entry)
    ensures e.Direct? <==> Truthy(Get(arg.GetOr(map[]), "metadata"))
    ensures e.Direct? ==> e.result == GenerateReport(arg.value, host)
    ensures e.Plugin? ==> e.name == PluginName && e.captured == arg.GetOr(map[])
  {
    var options := arg.GetOr(map[]);
    if Truthy(Get(options, "metadata")) then Direct(GenerateReport(options, host))
    else Plugin(PluginName, options)
  }

  /** In direct mode, once the payload serialises and `outputFile` is a string, the returned value
      is the resolved `outputFile`, the same path that is written. */
  lemma {:induction false} DirectModeReturnsWrittenPath(options: Object, host: Host)
    requires Truthy(Get(options, "metadata"))
    requires EncodedPayload(MergeOptions(host.defaults, options), host).Some?
    requires Get(MergeOptions(host.defaults, options), "outputFile").Str?
    ensures var e := MetadataReport(Some(options), host);
      e.Direct? && e.result.Success?
      && e.result.value.path == host.resolve(Get(MergeOptions(host.defaults, options), "outputFile").s)
  {
  }

  /** The result the bundler passes to `onEnd`: `metafile` (absent reads as `undefined`) and
      `errors` (absent is `None`). */
  datatype BuildResult = BuildResult(metafile: Value, errors: Option<seq<Value>>)

  /** `errors && errors.length`. */
  predicate HasErrors(res: BuildResult) {
    res.errors.Some? && |res.errors.value| > 0
  }

  /** The one diagnostic: the red "metadata not found, enable `metafile`" line. */
  datatype Diagnostic = MissingMetafile

  /** What one `onEnd` call does: nothing, print the diagnostic, or generate the report. */
  datatype Outcome =
    | Silent
    | Warn(diagnostic: Diagnostic)
    | Generate(report: Result<Generated, Error>)

  /** An `onEnd` call's outcome and the captured options object after it. */
  datatype Handled = Handled(outcome: Outcome, options: Object)

  /** The `onEnd` handler. Without a metafile it is silent when the build reported errors and warns
      once otherwise, changing nothing; with one it stores it as `options.metadata`, its only change
      to the options, and generates the report once from the updated options. */
  function OnEnd(captured: Object, res: BuildResult, host: Host): (h: Handled)
    ensures !Truthy(res.metafile) ==> h.options == captured
    ensures !Truthy(res.metafile) && HasErrors(res) ==> h.outcome == Silent
    ensures !Truthy(res.metafile) && !HasErrors(res) ==> h.outcome == Warn(MissingMetafile)
    ensures Truthy(res.metafile) ==> h.outcome.Generate? && h.outcome.report == GenerateReport(h.options, host)
    ensures Truthy(res.metafile) ==> h.options.Keys == captured.Keys + {"metadata"} && h.options["metadata"] == res.metafile
    ensures forall k :: k in captured && k != "metadata" ==> h.options[k] == captured[k]
  {
    if !Truthy(res.metafile) then
      if HasErrors(res) then Handled(Silent, captured)
      else Handled(Warn(MissingMetafile), captured)
    else
      var options := captured["metadata" := res.metafile];
      Handled(Generate(GenerateReport(options, host)), options)
  }

  /** When the build delivers a metafile, the report embeds exactly that metafile under the
      merged name. */
  lemma {:induction false} PluginReportEmbedsMetafile(captured: Object, res: BuildResult, host: Host)
    requires Truthy(res.metafile)
    ensures var merged := MergeOptions(host.defaults, OnEnd(captured, res, host).options);
      ReportData(merged) == map["name" := Get(MergeOptions(host.defaults, captured), "name"), "metadata" := res.metafile]
  {
  }

  /** The captured options and the outcomes after a sequence of `onEnd` calls. */
  datatype Run = Run(options: Object, outcomes: seq<Outcome>)

  /** The handler run on each build result in turn; the options object carries over. */
  function HandleEvents(captured: Object, events: seq<BuildResult>, host: Host): (run: Run)
    ensures |run.outcomes| == |events|
    decreases |events|
  {
    if |events| == 0 then Run(captured, [])
    else
      var h := OnEnd(captured, events[0], host);
      var rest := HandleEvents(h.options, events[1..], host);
      Run(rest.options, [h.outcome] + rest.outcomes)
  }

  /** The number of results that carry a metafile. */
  function CountWithMetafile(events: seq<BuildResult>): nat {
    if |events| == 0 then 0
    else (if Truthy(events[0].metafile) then 1 else 0) + CountWithMetafile(events[1..])
  }

  /** The number of outcomes that generated a report. */
  function CountGenerated(outcomes: seq<Outcome>): nat {
    if |outcomes| == 0 then 0
    else (if outcomes[0].Generate? then 1 else 0) + CountGenerated(outcomes[1..])
  }

  /** The metafile of the last result that carries one. */
  function LastMetafile(events: seq<BuildResult>): Option<Value> {
    if |events| == 0 then None
    else if Truthy(events[|events| - 1].metafile) then Some(events[|events| - 1].metafile)
    else LastMetafile(events[..|events| - 1])
  }

  /** Over any sequence of builds: each outcome, report included, is the one the handler gives on
      that result alone from the options first captured; a report is generated once per result
      with a metafile; other options never change; and `metadata` ends as the last metafile
      delivered, or as it was if none came. */
  lemma {:induction false} HandleEventsOutcomes(captured: Object, events: seq<BuildResult>, host: Host)
    ensures var run := HandleEvents(captured, events, host);
      forall i :: 0 <= i < |events| ==> run.outcomes[i] == OnEnd(captured, events[i], host).outcome
    ensures var run := HandleEvents(captured, events, host);
      && (forall i :: 0 <= i < |events| ==> (run.outcomes[i].Generate? <==> Truthy(events[i].metafile)))
      && (forall i :: 0 <= i < |events| ==>
            (run.outcomes[i] == Warn(MissingMetafile) <==> !Truthy(events[i].metafile) && !HasErrors(events[i])))
      && CountGenerated(run.outcomes) == CountWithMetafile(events)
      && (forall k :: k != "metadata" ==> Get(run.options, k) == Get(captured, k))
      && Get(run.options, "metadata") == LastMetafile(events).GetOr(Get(captured, "metadata"))
  {
    HandleEventsPointwise(captured, events, host);
    var run := HandleEvents(captured, events, host);
    forall i | 0 <= i < |events|
      ensures run.outcomes[i] == OnEnd(captured, events[i], host).outcome
    {
      OptionsBeforeAgrees(captured, events, i, host);
      OnEndIgnoresMetadata(OptionsBefore(captured, events, i, host), captured, events[i], host);
    }
    HandleEventsCount(captured, events, host);
    HandleEventsOptions(captured, events, host);
  }

  /** The `i`-th outcome is the handler's on the `i`-th result, with the options as the earlier
      builds left them. */
  lemma {:induction false} HandleEventsPointwise(captured: Object, events: seq<BuildResult>, host: Host)
    ensures var run := HandleEvents(captured, events, host);
      forall i :: 0 <= i < |events| ==> run.outcomes[i] == OnEnd(OptionsBefore(captured, events, i, host), events[i], host).outcome
    decreases |events|
  {
    if |events| > 0 {
      var h := OnEnd(captured, events[0], host);
      HandleEventsPointwise(h.options, events[1..], host);
      var rest := HandleEvents(h.options, events[1..], host);
      var run := HandleEvents(captured, events, host);
      forall i | 1 <= i < |events|
        ensures run.outcomes[i] == rest.outcomes[i - 1] && events[i] == events[1..][i - 1]
        ensures OptionsBefore(captured, events, i, host) == OptionsBefore(h.options, events[1..], i - 1, host)
      {
      }
    }
  }

  /** The captured options as the `i`-th build finds them. */
  function OptionsBefore(captured: Object, events: seq<BuildResult>, i: nat, host: Host): Object
    requires i <= |events|
    decreases i
  {
    if i == 0 then captured
    else OptionsBefore(OnEnd(captured, events[0], host).options, events[1..], i - 1, host)
  }

  /** Two option objects that agree on every key but `metadata`. */
  ghost predicate AgreeBesideMetadata(a: Object, b: Object) {
    forall k :: k != "metadata" ==> (k in a <==> k in b) && (k in a ==> a[k] == b[k])
  }

  /** The options any build finds differ from the captured ones at most in `metadata`. */
  lemma {:induction false} OptionsBeforeAgrees(captured: Object, events: seq<BuildResult>, i: nat, host: Host)
    requires i <= |events|
    ensures AgreeBesideMetadata(OptionsBefore(captured, events, i, host), captured)
    decreases i
  {
    if i > 0 {
      var next := OnEnd(captured, events[0], host).options;
      OptionsBeforeAgrees(next, events[1..], i - 1, host);
    }
  }

  /** The handler's outcome does not depend on the `metadata` it finds in the options: it is
      either silent, a warning, or a report from the options with `metadata` overwritten. */
  lemma {:induction false} OnEndIgnoresMetadata(a: Object, b: Object, res: BuildResult, host: Host)
    requires AgreeBesideMetadata(a, b)
    ensures OnEnd(a, res, host).outcome == OnEnd(b, res, host).outcome
  {
    if Truthy(res.metafile) {
      assert a["metadata" := res.metafile] == b["metadata" := res.metafile];
    }
  }

  /** A report is generated once per build result that carries a metafile. */
  lemma {:induction false} HandleEventsCount(captured: Object, events: seq<BuildResult>, host: Host)
    ensures CountGenerated(HandleEvents(captured, events, host).outcomes) == CountWithMetafile(events)
    decreases |events|
  {
    if |events| > 0 {
      var h := OnEnd(captured, events[0], host);
      HandleEventsCount(h.options, events[1..], host);
      var run := HandleEvents(captured, events, host);
      assert run.outcomes[1..] == HandleEvents(h.options, events[1..], host).outcomes;
    }
  }

  /** Only `metadata` changes over a run, and it ends as the last metafile delivered, or as it was
      if none came. */
  lemma {:induction false} HandleEventsOptions(captured: Object, events: seq<BuildResult>, host: Host)
    ensures var run := HandleEvents(captured, events, host);
      && (forall k :: k != "metadata" ==> Get(run.options, k) == Get(captured, k))
      && Get(run.options, "metadata") == LastMetafile(events).GetOr(Get(captured, "metadata"))
    decreases |events|
  {
    if |events| > 0 {
      var h := OnEnd(captured, events[0], host);
      HandleEventsOptions(h.options, events[1..], host);
      LastMetafileSplit(events);
    }
  }

  /** `LastMetafile` looked at from the front: the last metafile of the tail if there is one,
      otherwise the first result's own. */
  lemma {:induction false} LastMetafileSplit(events: seq<BuildResult>)
    requires 1 <= |events|
    ensures LastMetafile(events) ==
      (if LastMetafile(events[1..]).Some? then LastMetafile(events[1..])
       else if Truthy(events[0].metafile) then Some(events[0].metafile)
       else None)
    decreases |events|
  {
    if |events| > 1 {
      var n := |events|;
      assert events[1..][..n - 2] == events[..n - 1][1..];
      assert events[1..][n - 2] == events[n - 1];
      LastMetafileSplit(events[..n - 1]);
    }
  }
}
