# esbuild metadata report — a Dafny model

This project models the two pure cores of the esbuild metadata report tool.

The first is the report generator in `lib/index.js`:
- the caller's options are overlaid on the defaults;
- the `{name, metadata}` payload is serialised and compressed;
- the payload is embedded, together with the prebuilt viewer, in an inline `<script>`;
- that script and the title are filled into the HTML template with two first-occurrence `replace` calls;
- the page is written to the resolved `outputFile`.

It also models the entry point `metadataReport`. With a truthy `options.metadata` it generates the report at once and returns the path. Otherwise it returns the `metadata-report` esbuild plugin. The plugin's `onEnd` handler is silent, warns, or generates the report.

The second is two display helpers of the viewer in `packages/app/src/utils/util.js`:
- `getSourceName`, the short display name of a module path;
- `BF`/`BSF`, the choice of a byte unit by powers of 1024.

Modules:
- `Wrappers`: `Option` and `Result`.
- `Js`: the JavaScript value semantics the code relies on. These are truthiness, `o.key` reading `undefined` for a missing key, and `String(v)`.
- `Strings`: the JavaScript string and array built-ins involved. These are `indexOf`, `lastIndexOf`, `replace` with a string pattern (including the `$`-pattern expansion of GetSubstitution), `Array.join` and `split` on one character.
- `Report`: `generateReport`, `metadataReport` and the `onEnd` handler. Everything foreign is a field of a `Host` value: default options, viewer text, template text, `JSON.stringify`, `deflateSync` and `path.resolve`.
- `Util`: `getSourceName`, `BF` and `BSF`.

In four places the code does something a reader might not expect. The model follows the code:
- **Escaping.** The encoded payload is put between single quotes as it is, with no escaping (`lib/index.js:20`). No round-trip or quote-safety is claimed for the compressor.
- **Placeholders.** The `{content}` search runs on the text after the title is in. A name holding `{content}` therefore catches the script (`Report.ContentSplicedIntoTitle`).
- **`$` patterns.** `replace` expands `$` patterns in the replacement text (`Report.DollarPatternInContent`).
- **The `json` option.** It is never read, so it has no effect in the model.

## Model

| member | source | states |
|---|---|---|
| Report.MergeOptions | lib/index.js:9-12 | Every key the caller gives takes the caller's value, including an explicit `undefined`. Every other key keeps its default. The keys are the union of both. |
| Report.ReportData | lib/index.js:14-17 | The payload has exactly the keys `name` and `metadata`. Each holds the option's value, or `undefined` when it is missing. |
| Report.ScriptBlock | lib/index.js:20-29 | The script is the opening tag, then the `window.reportData = '…';` line with the payload, then the viewer, then the closing tag. The pieces are separated by newlines, in that order. |
| Report.PayloadEmbeddedVerbatim | lib/index.js:20 | The encoded payload appears unchanged right after the opening quote of the assignment. |
| Report.ScriptBlockDollarFree | lib/index.js:20-29 | The script adds no `$` beyond those in the payload and the viewer. |
| Report.FillTemplateSlots | lib/index.js:42 | Take a template with one `{title}` before one `{content}`, and `$`-free title and content that put no `{content}` ahead of the template's own. Then the title and content land in the two slots and the rest of the template is kept. |
| Report.ContentSplicedIntoTitle | lib/index.js:42 | A title that holds `{content}` receives the script, and the template's own `{content}` stays in the page. |
| Report.DollarPatternInContent | lib/index.js:42 | A `$&` in the content puts the matched `{content}` back in its place. |
| Report.FillTemplate | lib/index.js:42 | The two chained `replace` calls. A template without `{title}` only has its `{content}` replaced, and a template with neither placeholder comes back unchanged. |
| Report.GenerateReport | lib/index.js:8-47 | Generation fails with an encoding error exactly when `JSON.stringify` throws on the payload (line 19). Past that, it fails exactly when the merged `outputFile` is not a string, as `path.resolve` throws (line 32). Otherwise it succeeds, and the report path is that file resolved. |
| Report.TemplateWithoutPlaceholders | lib/index.js:40-44 | A template with neither placeholder is written unchanged, whatever the options. |
| Report.ReportLayout | lib/index.js:14-44 | Take a template with one `{title}` before one `{content}`, a `$`-free name, payload and viewer, and no `{content}` in prefix + name + middle. Then the page is prefix, name, middle, script block (assignment, then viewer) and suffix. Without these conditions the layout fails, as `Report.ContentSplicedIntoTitle` and `Report.DollarPatternInContent` show. |
| Report.ExplicitUndefinedOutputFile | lib/index.js:9-32 | An explicit `outputFile: undefined` overrides the default, and generation fails. Once the payload serialises, the failure is the `path.resolve` error. |
| Report.MetadataReport | lib/index.js:50-55 | Direct mode happens exactly when `options.metadata` is truthy, and it then gives the result of generating the report. Otherwise the result is the plugin named `metadata-report`, holding the caller's options (`{}` when none are given). |
| Report.DirectModeReturnsWrittenPath | lib/index.js:44-52 | In direct mode, when the payload serialises and `outputFile` is a string, the returned value is the resolved `outputFile`, which is also the path written. |
| Report.OnEnd | lib/index.js:57-67 | With no metafile, the handler is silent when the build has errors and warns once otherwise, changing nothing. With a metafile, it sets `options.metadata` and changes no other key. It then generates the report once from the updated options. |
| Report.PluginReportEmbedsMetafile | lib/index.js:66-67 | The plugin's report payload is the merged name plus exactly the metafile just delivered. |
| Report.HandleEvents | lib/index.js:56-68 | The handler applied to each build result in turn gives one outcome per result. |
| Report.HandleEventsOutcomes | lib/index.js:56-68 | Over any sequence of builds, each outcome, including the report generated, is the handler's outcome on that build result alone, from the options first captured. Generate and warn are characterised both ways. Reports are generated as many times as metafiles arrive. Keys other than `metadata` never change. `metadata` ends as the last metafile delivered, or as it was if none came. |
| Report.HandleEventsPointwise | lib/index.js:56-68 | The `i`-th outcome of a run is the handler's outcome on the `i`-th build result, with the options as the earlier builds left them. |
| Report.OptionsBeforeAgrees | lib/index.js:66 | The options any build finds differ from the captured ones at most in `metadata`. |
| Report.OnEndIgnoresMetadata | lib/index.js:58-67 | The handler's outcome does not depend on the `metadata` already in the options, because line 66 overwrites it before generating. |
| Report.HandleEventsCount | lib/index.js:57-67 | A run generates as many reports as build results carrying a metafile. |
| Report.HandleEventsOptions | lib/index.js:66 | Over a run, keys other than `metadata` never change. `metadata` ends as the last metafile delivered, or unchanged if none came. |
| Report.LastMetafileSplit | lib/index.js:66 | The last metafile delivered, read from the front of the sequence. |
| Strings.IndexOf | lib/index.js:42 | `indexOf` finds nothing exactly when the pattern does not occur, and otherwise finds the first occurrence. |
| Strings.ReplaceFirst | lib/index.js:42 | A missing pattern leaves the text unchanged. Otherwise the first occurrence alone is replaced by the expanded replacement, and the text around it is kept. |
| Strings.FirstOccurrenceAfter | lib/index.js:42 | A pattern whose first character appears nowhere else in it cannot straddle a seam. Its first occurrence in `a + pat + b` is therefore right after `a` when `a` lacks it. |
| Strings.ReplaceFirstAt | lib/index.js:42 | Replacing in `a + pat + b` with a `$`-free replacement gives `a + repl + b`. |
| Strings.Substitute | lib/index.js:42 | GetSubstitution for a string pattern. Every character of the expansion comes from the replacement, the match, or the text before or after it. |
| Strings.SubstituteLiteral | lib/index.js:42 | A replacement without `$` is inserted literally. |
| Strings.SubstituteMatchPattern | lib/index.js:42 | `$&` in the replacement inserts the matched text. |
| Strings.Join | lib/index.js:24-29 | `Array.join` starts with the first piece. |
| Strings.JoinLength | lib/index.js:24-29 | A join is as long as its pieces plus one separator between each two neighbours. |
| Strings.LastIndexOf | packages/app/src/utils/util.js:16 | `lastIndexOf` gives the index of the last occurrence of the character, with none after it, or -1 when the character is absent. |
| Strings.IndexOfChar | packages/app/src/utils/util.js:11 | The first occurrence of the separator, with none before it, or -1 when the separator is absent. |
| Strings.Split | packages/app/src/utils/util.js:11 | `split` gives at least one piece, and no piece contains the separator. |
| Strings.JoinSplit | packages/app/src/utils/util.js:11 | Joining the pieces with the separator gives the string back. |
| Strings.SplitJoin | packages/app/src/utils/util.js:11 | `split` undoes `join` of separator-free pieces. |
| Strings.SplitConcat | packages/app/src/utils/util.js:11 | Splitting around one separator splits each side separately. |
| Js.Truthy | lib/index.js:51-59 | A value is falsy exactly when it is `undefined`, `null`, `false`, `0` or `""`. |
| Js.NatToDecimal | lib/index.js:42 | `String(n)` of a non-negative integer is non-empty, all decimal digits, and has no leading zero. |
| Js.ToJsString | lib/index.js:42 | `String(v)` of a string is that string, and a number's text starts with `-` exactly when the number is negative. No non-string value gives a `$`. |
| Js.DecimalRoundTrip | lib/index.js:42 | Reading back the decimal text of a number gives the number. |
| Util.SourceNameOf | packages/app/src/utils/util.js:16-29 | A last segment with an extension is returned alone. Otherwise a non-empty parent segment gives `dir/name`, and an empty or missing one gives `name`. |
| Util.GetSourceName | packages/app/src/utils/util.js:10-30 | The display name always ends the path and holds at most one `/`. |
| Util.SegmentsAreSuffixes | packages/app/src/utils/util.js:11-13 | The last segment, and the parent segment followed by `/` and the last segment, both end the path. Neither segment holds a `/`. |
| Util.SegmentsOf | packages/app/src/utils/util.js:11-13 | For `front + "/" + name`, the two `pop`s give `name` and then the last segment of `front`. |
| Util.ExtensionTestIsHasExtension | packages/app/src/utils/util.js:16-20 | The test "last `.` followed by `[a-z0-9]+` to the end" holds exactly when some `.` is followed by such an extension. |
| Util.SourceNameWithExtension | packages/app/src/utils/util.js:16-22 | A last segment with an extension is returned alone, whatever precedes it. |
| Util.SourceNameOfExtended | packages/app/src/utils/util.js:12-22 | A path whose last segment has an extension shows that segment alone. |
| Util.SourceNameWithParent | packages/app/src/utils/util.js:25-28 | Without an extension, a non-empty parent segment is kept: the result is `dir/name`. |
| Util.SourceNameFromSegments | packages/app/src/utils/util.js:16-28 | Without an extension and with a non-empty parent segment, the result is parent, `/`, last segment. |
| Util.SourceNameWithoutParent | packages/app/src/utils/util.js:26-29 | Without an extension, a path with no parent segment or an empty one (`x`, `/x`, `a//x`) gives the last segment alone. |
| Util.SourceNameOfEmpty | packages/app/src/utils/util.js:10 | The default argument `''` gives `''`. |
| Util.UnitSearch | packages/app/src/utils/util.js:73-81 | The loop finds the first unit whose open range `(1024^i, 1024^(i+1))` holds the count, or none. |
| Util.BF | packages/app/src/utils/util.js:60-83 | The defaults are `places = 1` and `space = ''`. `0` gives `0 + space + B`. Otherwise the one unit whose range holds `abs(v)` is chosen, prefixed with `-` exactly when `v < 0`. With no such unit the bare `abs(v)` is returned. |
| Util.BSF | packages/app/src/utils/util.js:85-87 | `BF` with a space and the default `places = 1`: `0 B`, a unit from the list, or the bare `abs(v)`. |
| Util.ByteFormatDefaults | packages/app/src/utils/util.js:60-87 | The defaults are `places = 1`, with `space = ''` for `BF` and `' '` for `BSF`. So `BF(0)` is `0B`, `BSF(0)` is `0 B`, and 1536 is shown in `KB` with one decimal place, signed for a negative input. |
| Util.UnitRangeUnique | packages/app/src/utils/util.js:73-76 | At most one unit's range holds a count. |
| Util.ExactPowerInNoRange | packages/app/src/utils/util.js:76 | An exact power of 1024 lies in no unit's open range. |
| Util.BfExactPower | packages/app/src/utils/util.js:66-82 | `BF(±1024^k)` returns the bare `1024^k`, losing the unit and the sign of a negative input. |
| Util.BfBeyondLastUnit | packages/app/src/utils/util.js:72-82 | A count of at least `1024^9` returns the bare `abs(v)`. |
| Util.FloorLog1024 | packages/app/src/utils/util.js:74-75 | For `n ≥ 1`, gives the `k` with `1024^k ≤ n < 1024^(k+1)`. |
| Util.BfScalesBetweenPowers | packages/app/src/utils/util.js:65-80 | Every count from 1 to below `1024^9` that is not a power of 1024 gets a unit, with its sign. |
| Util.BfFrom | packages/app/src/utils/util.js:76 | The corrected test `v >= min && v < max`: zero, the one unit whose half-open range holds `abs(v)`, or the bare number. |
| Util.UnitRangeFromUnique | packages/app/src/utils/util.js:73-76 | The half-open ranges are disjoint too. |
| Util.BfFromScalesEveryCount | packages/app/src/utils/util.js:65-80 | With the corrected test, every non-zero count below `1024^9` gets the unit of its largest power of 1024, with its sign. |
| Util.BfFromAgreesOffPowers | packages/app/src/utils/util.js:76 | The corrected and the original test agree except on exact powers of 1024. |

## Left out

- File-system effects are not modelled: `existsSync`, `mkdirSync` and `writeFileSync` (`lib/index.js:33-38, 44`). The report is the pair (resolved path, HTML text) that would be written. Reading the viewer and the template becomes the `viewer` and `template` fields of `Host`.
- `path.resolve`, `JSON.stringify` and `deflateSync` are foreign. They are uninterpreted functions of `Host`, so nothing is claimed about the encoded text. `JSON.stringify` may fail (`None`, for the `TypeError` it throws on a `BigInt` or a cycle). `deflateSync` is taken to be total. `path.resolve` is modelled only by its `TypeError` on a non-string argument.
- Report.GenerateReport: the throws of the file-system calls are not modelled, because the file system is not. These are reading the viewer (line 22), creating the directory (lines 34-38), reading the template (line 40) and writing the page (line 44).
- `lib/default/options.js` is not part of this model. The defaults are the `defaults` field of `Host`.
- The `json` option is declared in the typings but never read by the code, so it is not modelled.
- `EC.logRed` colouring is reduced to the single diagnostic value `MissingMetafile`.
- esbuild's `setup`/`build.onEnd` registration is not modelled. The plugin holds the captured options object, and `OnEnd`/`HandleEvents` apply the handler to each build result in turn.
- Report.OnEnd: the plugin's `Plugin(name, captured)` and the handler's options are values. In the code the closure holds the caller's own object (lines 50, 66), so aliasing is not modelled in either direction. The metadata written at line 66 is not seen by a later `metadataReport` call on the same object, which would then take direct mode. A change the caller makes to that object between builds, such as a new `outputFile`, does not reach the next `generateReport` at line 67.
- A `metadataReport` argument that is `null` or not an object is not modelled. Only an object or no argument is.
- Js.ToJsString: numbers are integers, so fractions and the exponent form of numbers from `1e21` up are not rendered. Objects and arrays all render as `[object Object]`; an array's element list and a custom `toString` are not modelled.
- Util.BF: inputs are integers, and `toNum` of `turbogrid` is not part of this model. The text `(v / min).toFixed(places)` is kept abstract as the magnitude, the divisor and `places`, since it is floating-point formatting.
- `PF`, `PSF` and `PNF` are floating-point percent formatting. `toNum` and the rest of `turbogrid`'s `GridUtil` are not part of this model.
- `isTouchDevice` probes browser globals. `generatePercentChart` is a fixed HTML snippet.
- Util.BSF: it calls `BF` as written, not the corrected `BfFrom`, because it models the code.

## Findings

| source | as written | input that shows it | evidently intended | confidence | as-written member | corrected member |
|---|---|---|---|---|---|---|
| packages/app/src/utils/util.js:76 | `v > min && v < max` excludes each unit's lower bound | `BF(1024)` returns the number `1024` instead of a `KB` text; `BF(1)` returns `1` instead of a `B` text; `BF(-1024)` returns `1024`, dropping the sign | `v >= min && v < max`, so that every non-zero count below `1024^9` gets a unit | medium, not executed | Util.BfExactPower | Util.BfFromScalesEveryCount |
