# FxFilter.js core, modelled in Dafny

FxFilter.js lets a page use custom SVG filters inside the CSS custom
property `--fx-filter`. A scan visits the elements of the document and reads
each element's `--fx-filter` value. It parses the value into native CSS
filter functions and registered custom filters, asks each custom filter's
callback for SVG filter markup, and appends two children to the element: an
`<svg>` block with the definitions, and a `.fx-container` overlay whose
`backdrop-filter` chains the native functions and `url(#id)` references in
their written order. Besides the runtime, this project models three pieces
of the release tooling:

- the `major.minor.patch` bump;
- the list of published versions;
- the download addresses the versions registry and the setup script compute.

The model is organised by the program's own files:

- `wrappers.dfy` (`Wrappers`): `Option` and `Result`.
- `js_text.dfy` (`JsText`): the JavaScript string operations the code
  relies on: `\w`, `\s`, `trim`, `split` on one character, `join`, decimal
  digits and the printing of integers.
- `parse_float.dfy` (`ParseFloat`): `parseFloat`. The parameter value is the
  exact real number that the longest numeric prefix denotes, or `Infinity`.
- `filter_parser.dfy` (`FilterParser`): the regular expression
  `(\w+(?:-\w+)*)\s*\(([^)]*)\)` with the `g` flag, and the `exec` loop of
  `parseFilterValue`. It also covers how each match becomes an item of
  `orderedFilters` and, when its name is registered, of `customFilters`.
- `fxfilter.dfy` (`FxFilterEngine`): `add`, `parseFilterValue` (whose
  `exec` loop is `FilterParser.ExecLoop`, run against the registry's names),
  `addFxContainer`, `removeFxContainer`, `getFxFilterValue` and
  `scanElements`.
  - The two static maps of the `FxFilter` class become fields of the class
    `FxFilter`: the registry and the element records. A third field is a
    counter that supplies fresh filter ids.
  - The document is the class `Document`, which maps each element to its
    ordered children. The methods update these fields in place.
  - Each method is proved against a function on an abstract `World`:
    `AddSpec`, `RemoveSpec`, `ScanOne` and `Scan`. The lemmas about those
    functions state what the code promises.
  - The invariant `Tracked` says that every element that has a container
    also has a record, and every record is marked as having a container.
    Adding, removing and scanning preserve it. Under it, a scan visit that finds a blank
    value removes the element's container and its record together.
- `scale.dfy` (`ScaleEffect`): how the `scale` effect's callback picks its
  two factors and its edge mode from its arguments, and when it gives up.
- `release.dfy` (`Release`): `incrementVersion`, and the insert-if-absent
  and newest-first sort of the versions list in `updateGhPages`. The list is
  the class `VersionsFile`.
- `versions.dfy` (`VersionsRegistry`): `getVersionUrl`.
- `setup.dfy` (`RemoteSetup`): how the setup script extracts the user and
  the repository from the `origin` remote, and the addresses it announces.

The model replaces the program's inputs and effects with plain values:

- The rendering callbacks are a parameter `render`. It receives a callback
  handle, the element and the parameters, and returns the callback's markup.
- The computed `--fx-filter` value of each element is a parameter `style`.
- The elements the document query returns are a parameter `queried`.
- The release date is a parameter.

## Model

| member | source | states |
|---|---|---|
| JsText.Trim | FxFilter.js:74 | `trim` removes exactly the leading and the trailing white space. The result is empty exactly when the text is all white space. |
| JsText.Split | FxFilter.js:194 | `split(',')` gives at least one piece. No piece contains the separator, and joining the pieces with it gives the text back. |
| JsText.SplitJoin | release.js:22 | Splitting text joined from separator-free pieces gives back the pieces. |
| JsText.NatToStringValue | release.js:26-31 | The decimal text of a number reads back as that number. |
| ParseFloat.ParseFloatPrefix | FxFilter.js:197-198 | `parseFloat` is NaN exactly when the text does not start with an optional sign followed by a digit, a point and a digit, or `Infinity`. |
| ParseFloat.ParseFloatInteger | FxFilter.js:197 | A run of digits followed by a character that cannot continue a number parses to the value of the digits. |
| ParseFloat.ParseFloatDecimal | FxFilter.js:197 | Digits, a point and digits parse to the decimal value they denote. |
| ParseFloat.ParseFloatMinus | FxFilter.js:197 | A leading minus negates the number. |
| ParseFloat.ParseFloatTrailingPoint | FxFilter.js:197 | Digits followed by a point and then nothing more of the number parse to the digits' value. |
| ParseFloat.ParseFloatLeadingPoint | FxFilter.js:197 | A point and digits with no digit before them parse to the fraction they denote. |
| ParseFloat.ParseFloatExponent | FxFilter.js:197 | Digits, `e` and digits parse to the integer times ten to the power of the exponent. |
| ParseFloat.ParseFloatNegativeExponent | FxFilter.js:197 | Digits, `e-` and digits parse to the integer divided by that power of ten. |
| ParseFloat.ParseFloatInfinity | FxFilter.js:197 | `Infinity` parses to positive infinity, whatever follows it. |
| ParseFloat.ParseFloatUnitSuffix | FxFilter.js:197 | `10px` parses to 10. |
| ParseFloat.ParseFloatExponentExample | FxFilter.js:197 | `1e3` parses to 1000. |
| ParseFloat.ParseFloatNegativeExponentExample | FxFilter.js:197 | `2e-2` parses to 0.02. |
| ParseFloat.ParseFloatLeadingPointExample | FxFilter.js:197 | `.5` parses to 0.5. |
| ParseFloat.ParseFloatTrailingPointExample | FxFilter.js:197 | `5.` parses to 5. |
| ParseFloat.ParseFloatDecimalExample | FxFilter.js:197 | `0.15` parses to 0.15. |
| ParseFloat.ParseFloatInfinityExample | FxFilter.js:197 | `Infinityx` parses to positive infinity. |
| ParseFloat.ParseFloatMinusInfinityExample | FxFilter.js:197 | `-Infinity` parses to negative infinity. |
| FilterParser.NameEndIsName | FxFilter.js:180 | The greedy name scan reads one or more word runs joined by single hyphens, and stops where neither a word character nor a hyphen followed by one comes next. |
| FilterParser.SpaceEndRun | FxFilter.js:180 | The `\s*` scan reads white space only and stops at the first other character. |
| FilterParser.FindCharFirst | FxFilter.js:180 | The `[^)]*\)` scan stops at the first `)`, and no `)` comes before it. |
| FilterParser.NameEndAt | FxFilter.js:180 | The name scan ends exactly at the end of a name that is followed by neither a word character nor a hyphen. |
| FilterParser.MatchAtSound | FxFilter.js:180 | A match found at a position is a name, optional white space, `(`, text without `)`, then `)`. |
| FilterParser.MatchAt | FxFilter.js:180 | The regular expression tried at one position: a match starts there and lies inside the text. Its shape is stated by `MatchAtSound` and `MatchAtComplete`. |
| FilterParser.MatchAtComplete | FxFilter.js:180 | Every text of that shape is matched at its start, and that match is the only one there. |
| FilterParser.FirstMatchLeftmost | FxFilter.js:183 | `exec` from `lastIndex` returns the match at the leftmost position at or after `lastIndex` that starts one. No position before it does. |
| FilterParser.FirstMatch | FxFilter.js:183 | `exec` from `lastIndex`: a match found starts at or after `lastIndex` and lies inside the text. That it is the leftmost one is `FirstMatchLeftmost`. |
| FilterParser.Matches | FxFilter.js:183-210 | Every match the loop collects lies inside the text, at or after the position the search started from. |
| FilterParser.MatchesOrdered | FxFilter.js:183-210 | The collected matches do not overlap, and they come left to right: each starts after the previous one's `)`. |
| FilterParser.MatchesAreMatches | FxFilter.js:183-210 | Each collected match is exactly what the expression matches at its start. |
| FilterParser.MatchesSkipOnlyNonMatches | FxFilter.js:183-210 | The text the loop skips holds no match: before the first match, between matches, and after the last. |
| FilterParser.MatchesHaveShape | FxFilter.js:180-183 | Every collected match has the shape the expression demands. |
| FilterParser.ClassifyParam | FxFilter.js:195-198 | A parameter stays a string exactly when `parseFloat` rejects it, and then it is the trimmed piece itself. Otherwise it is the number `parseFloat` reads from the piece. |
| FilterParser.ClassifyParamUnitSuffix | FxFilter.js:197-198 | The piece `10px` becomes the number 10. |
| FilterParser.ParseParams | FxFilter.js:192-193 | A blank parameter text gives no parameters. |
| FilterParser.ParseParamsExample | FxFilter.js:192-199 | `8, 0.15, left` gives the numbers 8 and 0.15 and the string `left`, in that order. |
| FilterParser.ClassifyPieces | FxFilter.js:194-199 | The `split`/`map`/`filter` chain on the pieces. Specified by `ParseParamsOfPieces`, `ClassifyPiecesAll`, `ClassifyPiecesSkipsBlank` and `ParseParamsExample`. |
| FilterParser.ParseParamsOfPieces | FxFilter.js:192-200 | Non-blank comma-separated pieces give one parameter per piece, in order, each classified from the trimmed piece. |
| FilterParser.ClassifyPiecesAll | FxFilter.js:194-199 | When no trimmed piece is empty, the trimmed pieces are classified one by one, in order and with none dropped. |
| FilterParser.ClassifyPiecesSkipsBlank | FxFilter.js:196-199 | A blank piece contributes no parameter: `8,,0.15` gives two parameters, not three. |
| FilterParser.ClassifyAll | FxFilter.js:183-210 | `orderedFilters` has one item per match. |
| FilterParser.ClassifyAllAt | FxFilter.js:189-208 | Item k comes from match k. It is custom exactly when the matched name is registered. A custom item carries the name and the parsed parameters. Otherwise the item is the text name, `(`, params, `)`, without any white space before `(`. |
| FilterParser.Classify | FxFilter.js:189-208 | One match as an item: custom with parsed parameters when the name is registered, otherwise its CSS text. Specified by `ClassifyAllAt`. |
| FilterParser.Parse | FxFilter.js:170-217 | `orderedFilters` of a value: the items of all matches, in order. Specified by `ClassifyAll`, `ClassifyAllAt` and the `Matches` lemmas. |
| FilterParser.ExecLoop | FxFilter.js:182-210 | The `exec` loop returns the items of all matches (`Parse`) and their custom filters (`CustomsOf`). |
| FilterParser.ExecStep | FxFilter.js:183 | When the matches found so far and those from `lastIndex` make up all matches, adding the next match to the found ones and resuming after its `)` keeps that so. |
| FilterParser.ParseStep | FxFilter.js:183-210 | One turn of the loop keeps its invariant: the found matches grow by the next match, and `orderedFilters` and `customFilters` grow by its item. |
| FilterParser.ParseDone | FxFilter.js:183 | Once `exec` fails, the matches found are all the matches of the value. |
| FilterParser.CustomsOfAppend | FxFilter.js:203-204 | `customFilters` of concatenated item lists is the concatenation of their `customFilters`. |
| FilterParser.CustomsOfMembers | FxFilter.js:203-204 | A filter is in `customFilters` exactly when a custom item of `orderedFilters` carries it. |
| FxFilterEngine.FxFilter.Add | FxFilter.js:6-9 | `add` sets the name's callback in the registry, replacing any earlier one, and changes nothing else. |
| FxFilterEngine.FxFilter.ParseFilterValue | FxFilter.js:170-217 | The `exec` loop returns the items of all matches (`Parse`) and their custom filters (`CustomsOf`), against the registry at parse time. |
| FxFilterEngine.FxFilter.BuildParts | FxFilter.js:91-112 | The `forEach` builds the parts and the definitions of the fold `Synthesize`, drawing ids from the supply, and changes neither the registry nor the records. |
| FxFilterEngine.FxFilter.AddFxContainer | FxFilter.js:77-131 | The method's effect on the document, the records and the id supply is `AddSpec`, and it leaves the registry unchanged. |
| FxFilterEngine.FxFilter.RemoveFxContainer | FxFilter.js:166-168 | The method's effect on the document is `RemoveSpec`. |
| FxFilterEngine.FxFilter.ScanElements | FxFilter.js:43-70 | Visiting the queried elements in order has the effect of `Scan`. |
| FxFilterEngine.Synthesize | FxFilter.js:91-112 | The `forEach` of `addFxContainer` as a fold. Specified by `SynthesizeTokens`, `SynthesizeDefs` and `SynthesizeUrlIds`. |
| FxFilterEngine.Rendered | FxFilter.js:99 | `callback(element, ...params)`. Specified by `SynthesizeDefs`, where each definition carries its callback's markup. |
| FxFilterEngine.Backdrop | FxFilter.js:115 | `filterParts.join(' ')`. Specified by `BackdropBlankIffNoTokens` and `JoinAllSpace`. |
| FxFilterEngine.Attach | FxFilter.js:115-130 | The append step of `addFxContainer`. Specified by `AttachIffParts` and `AttachKeepsSingleContainers`. |
| FxFilterEngine.AddSpec | FxFilter.js:77-131 | `addFxContainer` on the abstract state. Specified by `AddAppendsIffParts`, `AddSpecElements`, `AddSpecKeepsOthers` and `AddKeepsSingleContainers`. |
| FxFilterEngine.RemoveSpec | FxFilter.js:166-168 | `removeFxContainer` on the abstract state. Specified by `RemoveClears`. |
| FxFilterEngine.ScanOne | FxFilter.js:46-68 | One visit of `scanElements`. Specified by `ScanOneSettles`, `ScanOneRebuilds`, `ScanOneTearsDown` and `ScanOneKeepsTracked`. |
| FxFilterEngine.Scan | FxFilter.js:43-70 | `scanElements` over the queried elements. Specified by `ScanSettles`, `ScanIdempotent`, `ScanClearsBlank` and `ScanKeepsSingleContainers`. |
| FxFilterEngine.DefIds | FxFilter.js:97-106 | The ids of the definitions, in order. |
| FxFilterEngine.SynthesizeTokens | FxFilter.js:91-112 | The parts follow `orderedFilters` in order: a native item's text verbatim, one `url` per custom item with a callback, and nothing for a custom item whose callback is falsy. |
| FxFilterEngine.SynthesizeDefs | FxFilter.js:91-107 | There is one definition per custom item with a callback, in order. Each has a fresh id and its callback's markup, and the id supply advances by their number. |
| FxFilterEngine.SynthesizeUrlIds | FxFilter.js:97-106 | The `url(#id)` parts name the definitions' ids, in the same order. |
| FxFilterEngine.SynthesizeTokensNotBlank | FxFilter.js:106-110 | When no native item is blank, no part is blank. |
| FxFilterEngine.AllSpaceAppend | FxFilter.js:115-117 | A concatenation is blank exactly when both halves are. |
| FxFilterEngine.JoinAllSpace | FxFilter.js:115-117 | `join` with a blank separator is blank exactly when every part is. |
| FxFilterEngine.BackdropBlankIffNoTokens | FxFilter.js:115-117 | The `backdrop-filter` value is blank, so nothing is appended, exactly when no part was produced. |
| FxFilterEngine.ParsedCssNotBlank | FxFilter.js:180-208 | No native item of a parsed value is blank, because each starts with its name. |
| FxFilterEngine.Strip | FxFilter.js:166-168 | After removal, a child remains exactly when it was a child and is neither an svg nor a container. |
| FxFilterEngine.GetFxFilterValue | FxFilter.js:72-75 | The value is `null` exactly when the property is blank. Otherwise it is the trimmed property, which is non-empty and has no white space at either end. |
| FxFilterEngine.AddSpecElements | FxFilter.js:117-130 | `addFxContainer` records the element it appended to, and changes no other record. |
| FxFilterEngine.AddAppendsIffParts | FxFilter.js:79-130 | On an element without a container: when some part was produced, the svg block with the definitions and the container with the joined parts are appended, and the element is recorded. Otherwise the children and the records stay as they were. |
| FxFilterEngine.CountContainersAppend | FxFilter.js:119-124 | Appending the svg block and the container adds exactly one container. |
| FxFilterEngine.CountContainers | FxFilter.js:79 | The number of `.fx-container` children that `querySelector` looks for. Specified by `CountContainersAppend`, `NoContainerCount` and `RemoveClears`. |
| FxFilterEngine.NoContainerCount | FxFilter.js:79 | Children with no container count zero containers. |
| FxFilterEngine.AddKeepsSingleContainers | FxFilter.js:79-81 | `addFxContainer` never gives an element a second container. |
| FxFilterEngine.AttachKeepsSingleContainers | FxFilter.js:117-124 | Appending the svg block and the container to an element that has none keeps every element at one container or fewer. |
| FxFilterEngine.RemoveClears | FxFilter.js:166-168 | After `removeFxContainer` the element's children are `Strip` of the old ones: no container and no svg is left, and exactly the other children remain. Other elements, the records and the id supply are unchanged. |
| FxFilterEngine.StripAppend | FxFilter.js:166-168 | Removal works child by child: stripping a concatenation strips each part, so the children kept stay in their order. |
| FxFilterEngine.StripContent | FxFilter.js:166-168 | Children that are neither svg blocks nor containers are all kept, in order, with none dropped or repeated. |
| FxFilterEngine.StripDropsAttached | FxFilter.js:166-168 | Removal undoes what `addFxContainer` appended: the svg block and the container go, and the earlier children are stripped as before. |
| FxFilterEngine.RemoveKeepsSingleContainers | FxFilter.js:166-168 | Removal keeps every element at one container or fewer. |
| FxFilterEngine.ScanOneSettles | FxFilter.js:46-68 | After the scan visits an element, its record agrees with its value and every other element keeps its record. A non-empty value is recorded even when nothing was appended, because line 54 or 59 records it. |
| FxFilterEngine.ScanSettles | FxFilter.js:43-70 | After a scan every visited element is settled. |
| FxFilterEngine.ScanSettledUnchanged | FxFilter.js:43-70 | A scan over settled elements changes nothing. |
| FxFilterEngine.ScanIdempotent | FxFilter.js:43-70 | While the property values stay the same, a second scan changes nothing. |
| FxFilterEngine.ScanOneKeepsSingleContainers | FxFilter.js:46-68 | One step of the scan keeps every element at one container or fewer. |
| FxFilterEngine.ScanKeepsSingleContainers | FxFilter.js:43-70 | However the values change between scans, no element ever gets a second container. |
| FxFilterEngine.AddSpecKeepsOthers | FxFilter.js:117-124 | `addFxContainer` changes no other element's children. |
| FxFilterEngine.ScanOneKeepsOthers | FxFilter.js:46-68 | One visit of the scan changes no other element's children. |
| FxFilterEngine.AddRecordKeepsTracked | FxFilter.js:51-54 | Adding a container and then recording the element keeps every container recorded, and every record marked as having one. |
| FxFilterEngine.RemoveKeepsTracked | FxFilter.js:166-168 | Removal keeps every container recorded. |
| FxFilterEngine.BlankRemovalKeepsTracked | FxFilter.js:63-66 | Removing the container and deleting the record keeps every remaining container recorded. |
| FxFilterEngine.ScanOneKeepsTracked | FxFilter.js:46-68 | One visit of the scan keeps every container recorded and every record marked as having one. |
| FxFilterEngine.ScanKeepsTracked | FxFilter.js:43-70 | However the values change between scans, every container stays recorded. |
| FxFilterEngine.ScanOneTearsDown | FxFilter.js:61-66 | When the value of an element with a container has gone blank, a visit removes its svg block and container, keeps its other children in order, and deletes its record. |
| FxFilterEngine.ScanOneRebuilds | FxFilter.js:49-59 | When every container is recorded and the value is new or has changed, a visit first removes the svg block and container (only when there was a record). It then appends what the new value builds, if any parts were produced, and records the new value with a container. No other element's children change. |
| FxFilterEngine.AddRecordRebuilds | FxFilter.js:53-54 | On an element without a container, adding and then recording appends the new svg block and container (when there are parts) and records the value. |
| FxFilterEngine.ScanOneBlankClears | FxFilter.js:61-66 | When every container is recorded, a visit to an element with a blank value leaves it no container and no record. |
| FxFilterEngine.ScanOneKeepsCleared | FxFilter.js:46-68 | A visit to another element does not give a cleared element a container or a record back. |
| FxFilterEngine.ScanClearsBlank | FxFilter.js:43-70 | After a scan from a state where every container is recorded, every visited element whose value is blank has no container and no record. |
| ScaleEffect.ValidateExactly | src/effects/scale.js:32-41 | The callback renders exactly when both factors are finite and non-zero and not both 1. It then renders with those factors and the edge mode given, where an unknown mode counts as `none`. |
| ScaleEffect.OneArgument | src/effects/scale.js:29-30 | One argument scales both ways by it, with edge mode `none`. |
| ScaleEffect.ThreeArguments | src/effects/scale.js:24-28 | Three arguments are the two factors and the edge mode, in order. |
| ScaleEffect.TwoArgumentsNumeric | src/effects/scale.js:14-19 | As written, two arguments whose second is a number scale both ways by the first, with edge mode `none`. |
| ScaleEffect.TwoArgumentsString | src/effects/scale.js:19-23 | As written, two arguments whose second is not a number always render nothing. |
| ScaleEffect.OtherArity | src/effects/scale.js:39-41 | With no argument, or with four or more, both factors stay 1 and nothing is rendered. |
| ScaleEffect.InvertedNumericTest | src/effects/scale.js:14 | As written, `scale(2, wrap)` renders nothing and `scale(2, 3)` renders 2 by 2. The documented reading gives 2 by 2 with `wrap`, and 2 by 3. |
| ScaleEffect.IntendedScaleAndEdge | src/effects/scale.js:4 | The corrected dispatch gives `(scale, edgeMode)`: both factors are the scale, and a known edge mode is kept. |
| ScaleEffect.IntendedTwoFactors | src/effects/scale.js:5 | The corrected dispatch gives `(scaleX, scaleY)`: the two factors in order. |
| ScaleEffect.IntendedAgreesElsewhere | src/effects/scale.js:24-31 | The corrected dispatch agrees with the written one for any number of arguments other than two. |
| ScaleEffect.Dispatch | src/effects/scale.js:12-31 | How the callback reads its arguments, as written. Specified by `OneArgument`, `ThreeArguments`, `TwoArgumentsNumeric`, `TwoArgumentsString` and `OtherArity`. |
| ScaleEffect.ScaleArguments | src/effects/scale.js:11-42 | The callback's decision: the setting it renders with, or nothing for the empty string. Specified by `ValidateExactly` and the dispatch lemmas. |
| Release.ParseVersionText | release.js:22 | Splitting a version's text at `.` and reading the pieces as numbers gives the version back. |
| Release.ComponentAt | release.js:23 | One destructured component of `split('.').map(Number)`: `Number` of the piece when the split has one, `undefined` when it has none. Specified by `ParseVersionText`, `IncrementWellFormed`, `PatchOfShortVersion` and `PatchOfOnePieceVersion`. |
| Release.IncrementWellFormed | release.js:22-31 | On a well-formed version: `major` gives (M+1).0.0, `minor` gives M.(m+1).0 and `patch` gives M.m.(p+1). The result is strictly newer in (major, minor, patch) order. |
| Release.IncrementInvalidType | release.js:32-33 | Any other type throws, whatever the version. |
| Release.CliNeverThrowsInvalidType | release.js:358 | A type the command line accepts never reaches the `throw`. |
| Release.PatchOfShortVersion | release.js:22-31 | A version without a patch component bumps to a `NaN` patch (`undefined + 1`). |
| Release.PatchOfOnePieceVersion | release.js:22-31 | A patch bump of `1` prints the missing minor as `undefined` and the missing patch as `NaN`: `1.undefined.NaN`. |
| Release.MinorOfOnePieceVersion | release.js:22-29 | A minor bump of `1` gives `1.NaN.0`. |
| Release.IncrementVersion | release.js:22-35 | `incrementVersion`. Specified by `IncrementWellFormed`, `IncrementInvalidType`, `PatchOfShortVersion`, `PatchOfOnePieceVersion` and `MinorOfOnePieceVersion`. |
| Release.NewEntry | release.js:212-218 | A new entry carries the version and the tag `v<version>`. |
| Release.InsertPermutes | release.js:221-228 | Insertion adds exactly that entry. |
| Release.InsertMembers | release.js:221-228 | The inserted list holds exactly the new entry and the old ones. |
| Release.InsertSorted | release.js:221-228 | Inserting into a newest-first list keeps it newest first. |
| Release.SortSorted | release.js:221-228 | The sorted list is newest first by numeric major, then minor, then patch. |
| Release.SortPermutes | release.js:221-228 | The sorted list holds the same entries, each as often. |
| Release.InsertStable | release.js:221-228 | Insertion puts the entry after every entry with the same key, and keeps that key's other entries in order. |
| Release.SortStable | release.js:221-228 | Entries with equal keys keep their relative order, as the stable `Array.prototype.sort` does. |
| Release.NumericNotTextual | release.js:222-227 | Components compare as numbers, so `1.10.0` sorts before `1.9.0`. |
| Release.Newer | release.js:222-227 | The comparator's order on components: major, then minor, then patch. Specified by `SortSorted` and `NumericNotTextual`. |
| Release.Key | release.js:222-227 | The components the comparator reads from an entry's version. Specified by `SortSorted`, `SortStable` and `NumericNotTextual`. |
| Release.UpdatedVersionsSpec | release.js:211-228 | After the update the list is newest first and holds the released version. It is a permutation of the old list when the version was already listed, and of the old list plus one new entry otherwise. |
| Release.SortNewestFirst | release.js:221-228 | The stable sort with the newest-first comparator. Specified by `SortSorted`, `SortPermutes` and `SortStable`. |
| Release.UpdatedVersions | release.js:211-228 | The insert-if-absent followed by the sort. Specified by `UpdatedVersionsSpec`. |
| Release.VersionsFile.AddRelease | release.js:211-228 | The list becomes `UpdatedVersions` of the old list, and it stays well formed. |
| VersionsRegistry.LastSlash | versions.js:18 | The last `/` is found, none comes after it, and there is none exactly when the text has no `/`. |
| VersionsRegistry.StripIsLeftmostMatch | versions.js:18 | The replace cuts the path at the only position where `\/[^/]*$` matches. When there is no match, the path is unchanged. |
| VersionsRegistry.StripAppendedSegment | versions.js:18 | Stripping `dir/segment` gives `dir` back. |
| VersionsRegistry.VersionUrlShape | versions.js:17-23 | `latest` names `FxFilter.js` next to the page. Any other version names `v<version>/FxFilter.js` next to the page. |
| VersionsRegistry.ProjectPageBase | versions.js:18 | `/FxFilterJS/index.html` strips to `/FxFilterJS`. |
| VersionsRegistry.RootPageBase | versions.js:18-20 | `/` strips to the empty path, so `latest` is `<origin>/FxFilter.js`. |
| VersionsRegistry.StripLastSegment | versions.js:18 | `pathname.replace(/\/[^/]*$/, '')`. Specified by `StripIsLeftmostMatch` and `StripAppendedSegment`. |
| VersionsRegistry.GetVersionUrl | versions.js:17-23 | `getVersionUrl(version)`. Specified by `VersionUrlShape`, `ProjectPageBase` and `RootPageBase`. |
| RemoteSetup.SlashFrom | setup.js:108 | The user group `[^\/]+` must end at the first `/` after the host's separator. |
| RemoteSetup.RepoOfIsShortest | setup.js:108 | The lazy repository group is the shortest non-empty group at which `(?:\.git)?$` can finish, so a final `.git` is dropped unless nothing would be left. |
| RemoteSetup.RepoOf | setup.js:108 | The lazy repository group. Specified by `RepoOfIsShortest`. |
| RemoteSetup.RemoteAtSound | setup.js:108 | A match is `github.com`, then `/` or `:`, a slash-free user, `/`, a slash-free repository and an optional `.git`, up to the end. |
| RemoteSetup.RemoteAtComplete | setup.js:108 | Every text of that shape matches, giving its user and the shortest repository. |
| RemoteSetup.RemoteFromLeftmost | setup.js:108 | `match` returns the match at the leftmost position where the pattern matches, and no match when no position does. |
| RemoteSetup.LeftmostAt | setup.js:108 | When `p` is the leftmost matching position, the result is the match at `p`. |
| RemoteSetup.AnnouncedAgreesWithRegistry | setup.js:112-113 | The announced latest and `v1.0.0` addresses are the ones `getVersionUrl` computes on the project's home page. |
| RemoteSetup.NoMatchNoUrls | setup.js:109 | No match, no addresses. |
| RemoteSetup.TrailingSlashRejected | setup.js:108 | A remote ending in `/` does not match. |
| RemoteSetup.HttpsRemote | setup.js:108 | An https remote gives its user, and its repository without `.git`. |
| RemoteSetup.SshRemote | setup.js:108 | The ssh form with `:` after the host gives its user and its repository. |
| RemoteSetup.BareGitRepository | setup.js:108 | A repository named just `.git` keeps its name. |
| RemoteSetup.RemoteAt | setup.js:108 | The pattern tried at one position. Specified by `RemoteAtSound` and `RemoteAtComplete`. |
| RemoteSetup.RemoteFrom | setup.js:108 | The search for the leftmost position where the pattern matches. Specified by `RemoteFromLeftmost` and `LeftmostAt`. |
| RemoteSetup.MatchRemote | setup.js:108 | `remoteUrl.match(...)`. Specified by `RemoteFromLeftmost`, `HttpsRemote`, `SshRemote` and `TrailingSlashRejected`. |
| RemoteSetup.CdnUrls | setup.js:111-114 | The three printed addresses. Specified by `AnnouncedAgreesWithRegistry`. |
| RemoteSetup.Announced | setup.js:108-115 | The addresses printed for a remote, or none. Specified by `NoMatchNoUrls` and `AnnouncedAgreesWithRegistry`. |

## Left out

- Console output, `requestAnimationFrame`, `CSS.registerProperty` and the
  `init`/`tick` loop are left out because they are I/O and scheduling. The
  `running` flag only makes the loop start once.
- `createUnifiedSVG` is left out because nothing calls it.
- The effect registrations and the markup the callbacks build are left out
  because they are float arithmetic on element sizes and
  `encodeURIComponent`. A callback is an opaque `render` function. The
  `scale` callback's markup is represented by `Some`.
- Rendering callbacks are assumed not to throw, because `render` is a total
  function. In the original, a throw from `callback(element, ...params)`
  escapes `addFxContainer`. For a new element, the element is then never
  recorded. For an element whose value changed, its container has already
  been removed, but it keeps its old record, which still says it has a
  container. In both cases the rest of the scan's `forEach` is skipped, and
  `tick` stops for good because its `requestAnimationFrame` is never
  reached.
- Only an element's direct children are modelled. `querySelector` would
  also see a container in a descendant. The `innerHTML +=` re-serialisation
  of existing children is also not modelled: children keep their identity
  and order.
- The random `fx-<name>-<base36>` ids are a fresh serial number from a
  counter, so two definitions never share an id here. The random ids make
  that only very likely.
- `getComputedStyle` is a parameter `style` that stays fixed during one scan.
  The result of `querySelectorAll` is a parameter `queried`.
- `WeakMap` garbage collection is not modelled. Element identity is a number.
- Numbers are exact reals, not IEEE doubles. `parseFloat` yields the prefix's
  exact value, and `1 / x` in `scale` is exact, so rounding to 0 or 1 is not
  modelled.
- Strings are sequences of Unicode scalar values, not UTF-16 code units.
- Release.IncrementVersion: version components are unbounded integers. In
  JavaScript they are doubles, so above 2^53 `major + 1` can equal `major`,
  and above 10^21 a component prints in exponent form. The model's
  "strictly newer" result in `IncrementWellFormed` therefore holds only
  below those sizes in the original.
- Release.Newer: the comparator compares exact integers. The original's
  `bMajor - aMajor` on doubles agrees only while the components are exact
  (below 2^53).
- JsText.NatToString: prints the plain decimal digits for every number.
  JavaScript does this only below 10^21.
- Release.IncrementVersion: does not follow `Number` on a component that is
  neither empty nor decimal digits (such as ` 5`, `1e3` or `x`). Such a
  component yields `Err(Unmodelled)`.
- Release.VersionsFile.AddRelease: requires the listed versions and the new
  one to be well formed, meaning exactly three pieces of decimal digits.
  That excludes two kinds of version:
  - Versions on which the comparator returns NaN, such as `1.2` or `x.0.0`.
    The order `Array.prototype.sort` then produces is unspecified.
  - Versions the comparator orders deterministically. For `1.2.3.4` it
    reads only the first three pieces, and for `1e1.0.0` it reads `1e1` as
    10. The model does not cover these lists.
- The file system, git and `gh` calls, `process.chdir`, and the parsing and
  writing of the versions file and page templates are left out. The release
  date is a parameter.
- `loadVersion` in versions.js is left out because it loads a script
  through a Promise.
- The prerequisite checks of setup.js are left out because they are I/O
  only. The remote URL is the trimmed command output.

## Findings

| source | as written | input that shows it | evidently intended | confidence | as-written member | corrected member |
|---|---|---|---|---|---|---|
| src/effects/scale.js:14 | With two arguments, a numeric second argument is taken as the edge mode and both factors become the first argument. A non-numeric one is taken as the second factor, which is then NaN. | `scale(2, wrap)` renders nothing. `scale(2, 3)` scales 2 by 2. | The header comment at lines 4-5 lists `(scale, edgeMode)` and `(scaleX, scaleY)`. So a non-numeric second argument is the edge mode, and a numeric one is the second factor. | not executed | ScaleEffect.InvertedNumericTest | ScaleEffect.IntendedScaleAndEdge |
