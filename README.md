# unused-interface-methods, modelled in Dafny

unused-interface-methods is a Go linter. It reports interface methods that nothing in the
project calls. The repository holds three implementations of that idea, and this project
models the core of each one.

- **The single-pass linter** (`pkg/linter/linter.go`) is modelled in `linter.dfy` and
  `linter_render.dfy`.
  - It extracts every method of every non-generic interface declaration. Generic interfaces
    only produce a warning.
  - It then looks for evidence that each method is used, in every file it does not skip, and
    reports the rest as UNUSED.
  - There are three kinds of evidence:
    - a call on a receiver that reaches the interface;
    - a selector on such a receiver;
    - a field whose type is an identifier with the interface's name, which resolves to a named
      type whose underlying interface is identical to the method's interface. Fields include
      struct fields, parameters, results, receivers and interfaces embedded in another
      interface. Any such field counts as a use of every method of the interface.
  - A receiver reaches the interface when its type is a named type with the interface's name
    (only the name is compared, so a same-named type from another package also counts), an
    identical interface, or an interface that declares the same method with an identical
    signature.
- **The two-stage pipeline**:
  - Stage 1 (`pkg/stage1/stage1.go`, `stage1.dfy`) records the calls `x.M(...)` that
    provably go through an interface. Packages that fail to type-check are skipped, and so are
    ignored files.
  - Stage 2 (`pkg/stage2/stage2.go`, `stage2.dfy`) takes every interface method that stage 1
    did not record.
    - It deletes the method from the parsed file and writes the file into a scratch copy of
      the project.
    - The method is reported when the external checker still passes on that copy.
- **The text prototype** (`pkg/try/try.go`, `try.dfy`) does the same on raw text.
  - It copies the files flat into a scratch directory.
  - It deletes each method's line by a line-based scan of the interface's body.
  - It runs the checker and writes the original text back.

## How the model is built

- **Shared modules:**
  - `common.dfy`: `Option`, subsequences, masks.
  - `go_strings.dfy`: `strings.Contains`, `Count`, `Split` and `Join`.
  - `go_types.dfy`: resolved types, and the method-set comparison behind `isSameInterface`.
  - `go_ast.dfy`: the syntax the walks meet.
- **Source files.** A file is the list of nodes that `ast.Inspect` visits, with the answers the
  type checker recorded for them: `TypeOf`, `ObjectOf`, `Defs`.
- **Go maps** (packages, files, the interface map) are Dafny maps. Each is visited in an
  unspecified order: a `:|` choice in the loop. The contracts hold whatever that order is, and
  a ghost out-parameter names the order where a result depends on it.
- **State changed in place becomes classes:**
  - `UnusedMethodLinter` is a class whose `methods` and `genericWarnings` fields its methods
    extend.
  - Stage 2's parsed file is a class `AstFile` whose declarations `RemoveMethod` filters in place.
    It also records the path it was parsed from and, as a ghost, the declarations as parsed.
    The loader stores each file under that path, in the one package its directory names, and
    nothing edits it before stage 2; stage 2's entry point requires exactly this.
  - Each method is proved against a specification function over the old state.
- **Signature identity** (`types.Identical` on signatures) is a parameter `(S, S) -> bool`.
  Lemmas that need it to be an equivalence say so.
- **Oracles passed as parameters:**
  - the configuration's `ShouldIgnore` is a predicate;
  - the external checker (staticcheck) is a predicate on what it would see. In stage 2 that is
    the path and the edited declarations. In the text prototype it is the whole scratch copy.
  - the Go parser of the text prototype maps a text to its type declarations, or to nothing.

## Model

| member | source | states |
|---|---|---|
| Linter.UnusedMethodLinter.constructor | pkg/linter/linter.go:48-55 | A new linter holds the given packages, configuration and identity, with no methods and no warnings |
| Linter.UnusedMethodLinter.AddGenericWarning | pkg/linter/linter.go:155-183 | Appends exactly one warning for the interface, whose method count is the number of declared names (embedded fields count zero); the method list is unchanged |
| Linter.UnusedMethodLinter.ExtractMethodsFromInterface | pkg/linter/linter.go:206-228 | Appends one entry per declared method name after the existing entries, each with its interface, signature, file and resolved interface |
| Linter.UnusedMethodLinter.ExtractDecl | pkg/linter/linter.go:127-145 | One declaration of the walk: a generic interface adds one warning, a resolved interface adds its methods, anything else adds nothing |
| Linter.UnusedMethodLinter.ExtractInterfaceMethodsFromFile | pkg/linter/linter.go:124-147 | Walks the file's type specs in order: a generic interface adds a warning only, a resolved interface adds its methods, anything else adds nothing |
| Linter.UnusedMethodLinter.ExtractPackage | pkg/linter/linter.go:106-121 | One package's files in order, each skipped file contributing nothing |
| Linter.UnusedMethodLinter.ExtractInterfaceMethods | pkg/linter/linter.go:106-121 | The lists grow by exactly what the kept files of all packages declare, in package and file order |
| Linter.UnusedMethodLinter.IsSameInterface | pkg/linter/linter.go:636-670 | The verdict is equal method counts plus, for each method of the first, a method of the same name and identical signature in the second. The source never calls `isSameInterface`; the model uses the same comparison as its stand-in for `types.Identical` on interfaces (linter.go:518, 602) |
| Linter.UnusedMethodLinter.IsMethodCallOnInterface | pkg/linter/linter.go:555-633 | True exactly when the operand's recorded type is a named type with the interface's name (the name alone, whatever the package), an identical interface, or an interface sharing the method by name and identical signature |
| Linter.UnusedMethodLinter.CheckMethodUsageWithTypes | pkg/linter/linter.go:428-552 | True exactly when some node of the file is a call, an examined selector, or a field that reaches the method |
| Linter.UnusedMethodLinter.IsMethodUsed | pkg/linter/linter.go:396-425 | True exactly when some file that is not skipped holds evidence for the method |
| Linter.UnusedMethodLinter.FindUnusedMethods | pkg/linter/linter.go:295-358 | Whatever the map order: the UNUSED reports are, as a multiset, exactly the unused methods; the used and unused counts add up to all methods; the result is true iff every method is used; the skipped count is the sum over generic warnings |
| Linter.UnusedMethodLinter.GroupByInterface | pkg/linter/linter.go:299-302 | The interface map's keys are exactly the interface names, and each maps to its methods in their original order |
| Linter.UnusedMethodLinter.ClassifyGroups | pkg/linter/linter.go:310-340 | Visiting every group in any order classifies every method exactly once, and the unused ones are, as a multiset, the unused methods of the whole list |
| Linter.UnusedMethodLinter.VisitGroup | pkg/linter/linter.go:311-339 | One more group classified: the visited methods grow by that group, and the unused ones by its unused methods |
| Linter.UnusedMethodLinter.ClassifyGroup | pkg/linter/linter.go:320-338 | One group's unused methods in order, and the rest counted as used |
| Linter.UnusedMethodLinter.SkippedInGenerics | pkg/linter/linter.go:342-345 | The sum of the method counts of all generic warnings |
| Linter.GroupSplit | pkg/linter/linter.go:299-338 | Adding one interface's group to the visited groups adds exactly that group's methods, and exactly its unused ones |
| Linter.InInterfacesAll | pkg/linter/linter.go:311 | Once every interface name has been visited, every method has been |
| Linter.OutsideIsUnused | pkg/linter/linter.go:326-331 | The methods outside the set of used methods are exactly the unused ones, in order |
| Linter.UnusedAmongMembers | pkg/linter/linter.go:326-331 | A method is reported unused iff it was extracted and no kept file uses it |
| Linter.UnusedAmongEmpty | pkg/linter/linter.go:357 | Nothing is unused iff every method is used, the condition for the linter's success |
| Linter.ExtractedMethodsFollowNames | pkg/linter/linter.go:206-228 | One entry per declared name, in source order, naming its interface and carrying the resolved interface |
| Linter.EmbeddedFieldAddsNothing | pkg/linter/linter.go:209-212 | An embedded field adds neither an entry nor to a generic interface's method count |
| Linter.GenericInterfaceOnlyWarns | pkg/linter/linter.go:128-143 | A generic interface gives one warning counting all its names and no entries; a non-generic one gives no warning |
| Linter.ExtractedFromKeptFiles | pkg/linter/linter.go:106-121 | Every extracted method comes from a file of some package that is not skipped |
| Linter.PackageFromKeptFiles | pkg/linter/linter.go:110-119 | Every method extracted from a package comes from one of its files that is not skipped |
| Linter.FileMethodsInFile | pkg/linter/linter.go:124-147 | Every method extracted from a file records that file |
| Linter.ShouldSkipFileCases | pkg/linter/linter.go:688-697 | A package whose path ends in `_test` is skipped whatever the configuration says; otherwise the configuration alone decides |
| Linter.ShouldSkipFileExamples | pkg/linter/linter.go:688-697 | Instances: a file of `example.com/myapp_test` is always skipped, and a file of `example.com/myapp` exactly when the configuration ignores it |
| Linter.NotInterfaceNeverReaches | pkg/linter/linter.go:555-633 | No type information, or a named non-interface type other than the method's, never reaches the method |
| Linter.InterfaceReceiversReach | pkg/linter/linter.go:555-633 | The method's own named type, an identical interface under another name, and an interface declaring the method all reach it |
| Linter.SameNameDifferentSignature | pkg/linter/linter.go:555-633 | Two interfaces that declare Process with non-identical signatures are kept apart: a call through one is not evidence for the other |
| LinterRender.TypeParamsString | pkg/linter/linter.go:186-203 | Empty iff the type-parameter list is missing or empty; otherwise bracketed |
| LinterRender.TypeParamEntriesCount | pkg/linter/linter.go:186-203 | A type-parameter list renders to exactly one entry per declared name |
| LinterRender.ParamEntriesCount | pkg/linter/linter.go:231-270 | A parameter list renders to one entry per declared name and one per unnamed field |
| LinterRender.MethodSignatureShape | pkg/linter/linter.go:231-270 | A field renders to a non-empty signature, opening with its parameter list, iff it has a function type |
| LinterRender.ParamEntriesPrefix | pkg/linter/linter.go:236-246 | The parameter loop only appends: the entries of the first n fields are a prefix of all entries |
| LinterRender.ParamEntriesOfField | pkg/linter/linter.go:236-246 | Field i's entries follow those of the fields before it, in order: `name type` per name or the bare type, each ending in typeToString of the field's type |
| LinterRender.SingleResultLast | pkg/linter/linter.go:254-266 | A method with one result field ends its signature with a space and that result's typeToString |
| LinterRender.ParseRendered | pkg/linter/linter.go:273-292 | Reading back the rendering of a type expression that loses nothing gives the expression back |
| LinterRender.RenderInjective | pkg/linter/linter.go:273-292 | Two such type expressions with the same rendering are equal |
| LinterRender.RenderDropsDetail | pkg/linter/linter.go:273-292 | Array lengths, channel directions and interface bodies are lost by the rendering |
| GoTypes.SameInterfaceSymmetric | pkg/linter/linter.go:636-670 | With identity an equivalence and unique method names, the comparison is symmetric |
| GoTypes.SameInterfaceNeedsUniqueNames | pkg/linter/linter.go:636-670 | Without unique names, the comparison is not symmetric |
| GoTypes.SameInterfaceReorder | pkg/linter/linter.go:636-670 | Reordering the methods of either interface does not change the verdict |
| GoTypes.EmptyInterfacesSame | pkg/linter/linter.go:636-670 | Two empty interfaces are the same, and an empty interface is the same only as an empty one |
| Stage1.CheckMethodUsage | pkg/stage1/stage1.go:23-104 | The guard chain plus the lookup loop: a use is returned, with ok set, exactly when the specification of the guards accepts the node |
| Stage1.ScanFile | pkg/stage1/stage1.go:161-177 | The walk of one file appends the accepted nodes in walk order, each stamped with the package path |
| Stage1.ScanPackage | pkg/stage1/stage1.go:148-178 | The files loop visits each file that is not ignored exactly once, in some order, and appends what their walks append; whatever the order, a use is found iff the walk of some kept file records it |
| Stage1.FindUsedMethods | pkg/stage1/stage1.go:107-182 | Packages that fail the type check have no entry; the others map to what their kept files append; a package has an entry only when something was appended |
| Stage1.UsageCharacterized | pkg/stage1/stage1.go:23-104 | A node is accepted iff it is a call on a selector whose operand has a named interface type declaring the method with an identical signature; the record names that type and method |
| Stage1.MethodValueNotRecorded | pkg/stage1/stage1.go:24-40 | A selector that is not called, or a call on anything but a selector, is never recorded |
| Stage1.SameNameKeptApart | pkg/stage1/stage1.go:88-101 | A call of Process on a ProcessorV1 value records ProcessorV1.Process |
| Stage1.FileUsagesSound | pkg/stage1/stage1.go:161-177 | A file's records are exactly its accepted nodes, each stamped with the package path |
| Stage1.PackageUsagesSound | pkg/stage1/stage1.go:148-178 | A package's records are exactly the records of the files visited |
| Stage1.RecordedExactly | pkg/stage1/stage1.go:107-182 | Whatever the map order, a use is recorded under a package iff the package type-checks and one of its kept files holds the accepted call |
| Stage2.FindInterfaces | pkg/stage2/stage2.go:89-125 | Returns the specification of the walk: every interface type spec, with one method per named field |
| Stage2.InterfacesOfMembers | pkg/stage2/stage2.go:89-125 | The interfaces found are exactly the interface type specs, each with the keys of its named fields |
| Stage2.MethodKeysMembers | pkg/stage2/stage2.go:107-118 | An interface's methods are exactly its named fields, keyed by first name and by the interface's name; embedded fields are skipped |
| Stage2.InterfaceNamesAgree | pkg/stage2/stage2.go:113-117 | Every method found carries the name of the interface it was found in |
| Stage2.FilterInterfaceFields | pkg/stage2/stage2.go:143-155 | Returns the kept fields and whether one was dropped |
| Stage2.FilterFieldsMembers | pkg/stage2/stage2.go:143-155 | A field survives iff it is embedded or its first name is not the method's |
| Stage2.FilterFieldsInOrder | pkg/stage2/stage2.go:143-155 | The survivors are a selection of the fields, in their original order |
| Stage2.FilterFieldsChanges | pkg/stage2/stage2.go:143-156 | Nothing dropped means the list is unchanged; a drop makes it strictly shorter |
| Stage2.RemoveMethod | pkg/stage2/stage2.go:128-160 | Filters in place every interface declaration with the name, and returns whether something was dropped |
| Stage2.RemoveMethodChangesIffRemoved | pkg/stage2/stage2.go:128-160 | The declarations change iff the result is true; other declarations are untouched, and embedded fields are kept |
| Stage2.RemoveKeepsOthers | pkg/stage2/stage2.go:128-160 | Deleting one method leaves every other method of every interface declared |
| Stage2.CheckCandidate | pkg/stage2/stage2.go:222-261 | One candidate turn: a used key changes nothing; otherwise the deletion is kept in the parsed file, and the candidate is reported when the deletion changed something and the checker passes |
| Stage2.CheckInterface | pkg/stage2/stage2.go:220-263 | The methods loop of one interface continues the sweep: the file and reports are those of the sweep over the candidates so far plus this interface's methods |
| Stage2.CheckFile | pkg/stage2/stage2.go:217-264 | The candidate loop of one file as written: the parsed file and the reports are those of the sweep over the candidates, with deletions accumulating |
| Stage2.SweepReports | pkg/stage2/stage2.go:220-262 | A candidate is reported iff, at its turn, it is not used, deleting it changes the declarations as they then are, and the checker passes |
| Stage2.UsedNeverReported | pkg/stage2/stage2.go:222-223 | A method whose key stage 1 recorded is never reported |
| Stage2.UsedNeverRemoved | pkg/stage2/stage2.go:222-227 | A method whose key stage 1 recorded is still declared after the sweep |
| Stage2.CheckPackage | pkg/stage2/stage2.go:207-265 | Ignored files stay as parsed; every other file ends as its sweep from the parsed declarations leaves it; the reports are exactly those of the swept files |
| Stage2.VisitPackage | pkg/stage2/stage2.go:197-266 | One package turn: that package's files are swept with its used keys, its reports are added, and the other packages' files are untouched |
| Stage2.FindUnusedMethods | pkg/stage2/stage2.go:177-269 | Over all packages in any order: each non-ignored file is swept with its package's used keys, ignored files are untouched, and a report names a package, file and method iff that sweep reports it |
| Stage2.CompoundingDeletionsHideUnused | pkg/stage2/stage2.go:227-260 | For `interface I { A(); B() }` with neither key used and any checker that fails once A is deleted, the sweep as written reports nothing |
| Stage2.CheckInterfaceRestoring | pkg/stage2/stage2.go:220-263 | Corrected methods loop: the file is unchanged and the reports are the isolated ones over the candidates so far plus this interface's methods |
| Stage2.CheckFileRestoring | pkg/stage2/stage2.go:217-264 | Corrected loop: the file is restored after each check, so the file is unchanged at the end and the reports are the isolated ones |
| Stage2.IsolatedReportsExactly | pkg/stage2/stage2.go:220-262 | Corrected loop: a candidate is reported iff it is unused, and deleting it alone from the original changes the file and passes the checker |
| Stage2.IsolatedReportsUnused | pkg/stage2/stage2.go:227-260 | Corrected loop: for the same file, with a checker that passes once B alone is deleted, I.B is reported and I.A is not |
| Try.ScanLines | pkg/try/try.go:175-195 | The loop of removeMethod computes the lines kept by the line scan |
| Try.RemoveMethod | pkg/try/try.go:169-198 | The result is the kept lines joined by newlines, with a line matching when it contains `name(` |
| Try.ScanSelects | pkg/try/try.go:175-197 | The output is the input with some lines deleted, in order, and never longer |
| Try.DroppedLines | pkg/try/try.go:176-188 | A line is dropped iff it matches inside the interface's region, or it follows a matched line that opens more parentheses than it closes |
| Try.RegionBounds | pkg/try/try.go:181-194 | A header line that is not skipped opens the region; a kept line holding `}` closes it; a line dropped by a match leaves the region open, even when it holds `}`; a skipped line leaves it as it was |
| Try.MatchedLineKeepsRegionOpen | pkg/try/try.go:185-194 | As written: after a line dropped by a match the region is open, because the `continue` skips the `}` test |
| Try.OneLineInterfaceDropsLaterCall | pkg/try/try.go:181-194 | As written: after a one-line declaration that opens the region, matches and holds `}`, any later matching line is dropped |
| Try.OneLineInterfaceKeepsLaterCall | pkg/try/try.go:181-194 | Corrected scan: after the same declaration the region is closed, and a later line that does not open it again is kept |
| Try.BraceClosesRegion | pkg/try/try.go:181-194 | Corrected scan: a line holding `}` that is not skipped closes the region, whether it is kept or dropped |
| Try.ClosingAgreesWithoutBraceMatch | pkg/try/try.go:175-195 | The corrected scan equals the scan as written on every text in which no line both matches and holds `}` |
| Try.OneLineInterfaceExample | pkg/try/try.go:175-195 | For `type I interface { M() }` followed by `x.M()`, removing M keeps no line as written, and keeps `x.M()` in the corrected scan |
| Try.ScanWithoutHeader | pkg/try/try.go:175-195 | Without a header line, the scan never enters a region and keeps every line |
| Try.NoHeaderUnchanged | pkg/try/try.go:169-198 | A text without the interface's header comes back unchanged |
| Try.SubstringMatchHitsLongerName | pkg/try/try.go:185 | The line `\tGetName(...)` matches the substring test for Name, and it declares GetName, not Name |
| Try.SubstringMatchDropsOtherMethod | pkg/try/try.go:185-188 | As written, such a line inside the region is dropped when the shorter name is removed |
| Try.GetNameHitByName | pkg/try/try.go:185 | Removing Name hits the line `\tGetName() string`; the exact match does not |
| Try.RemoveMethodExact | pkg/try/try.go:169-198 | Corrected removal: only a line that declares the method, after its indentation, is dropped |
| Try.DeclaresOneMethod | pkg/try/try.go:185 | Corrected match: a line declaring one method never declares another |
| Try.ExactMatchKeepsOtherMethods | pkg/try/try.go:185-188 | Corrected match: a line declaring another method is kept unless it is a skipped continuation; the method's own line is dropped inside the region |
| Try.FindInterfaces | pkg/try/try.go:120-139 | The names of the interface type specs in walk order, or nothing when the text does not parse |
| Try.InterfaceNamesMembers | pkg/try/try.go:128-136 | A name is found iff some type spec with that name has an interface type |
| Try.FieldNames | pkg/try/try.go:154-159 | The loop over an interface's fields collects the first names of the named fields, in order |
| Try.FindMethods | pkg/try/try.go:141-167 | The first names of the named fields of the interfaces with that name, or nothing when the text does not parse |
| Try.FirstNamesMembers | pkg/try/try.go:154-159 | A name is found iff it is the first name of a field that is not embedded |
| Try.MethodNamesMembers | pkg/try/try.go:149-164 | A method is found iff an interface with the name declares it in a named field |
| Try.BaseOfJoinedPath | pkg/try/try.go:28 | The last element of `dir/name` is `name` |
| Try.BaseHasNoSeparator | pkg/try/try.go:28 | A last path element holds no separator unless it is the root |
| Try.CopyFiles | pkg/try/try.go:24-34 | Fails iff some source file cannot be read; otherwise gives the flat scratch copy and the copied names in order |
| Try.CheckCandidate | pkg/try/try.go:51-71 | The report depends only on the checker run over the scratch copy with the method removed from this file's original text, and the copy is restored |
| Try.CheckMethods | pkg/try/try.go:51-72 | The methods loop of one interface: its reports are the checks of its methods in order, each against the file's original text |
| Try.CheckFile | pkg/try/try.go:38-74 | One file's reports are the checks of every method of every interface it declares, each against its original text |
| Try.CheckCode | pkg/try/try.go:17-77 | Fails iff a source file cannot be copied; otherwise returns the checks of all scratch files in order |
| Try.MethodChecksMembers | pkg/try/try.go:51-72 | `I.M` is reported for an interface iff M is among its methods and the check with M removed passes |
| Try.InterfaceChecksMembers | pkg/try/try.go:47-73 | `I.M` is reported for a file iff I is among its interfaces and the method's check reports it |
| Try.CheckCodeReports | pkg/try/try.go:38-76 | `I.M` is reported iff a scratch file declares I with method M and the checker passes on the copy with only M removed from that file's original text |
| GoStrings.JoinSplit | pkg/try/try.go:170-197 | Joining the pieces of a newline split with newlines gives the text back |
| GoStrings.SplitJoin | pkg/try/try.go:170-197 | Splitting a join of pieces that hold no newline gives the pieces back |

## Left out

- Loading packages (`LoadPackages`, `pkg/stage0`) is not part of this model. The linter is
  built with the packages it would keep, and stage 1 and stage 2 take the loaded packages as
  maps.
- The configuration file and its glob patterns are not part of this model. `ShouldIgnore` is a
  predicate parameter.
- Type checking is not modelled. The types that `TypeOf`, `ObjectOf` and `Defs` record are part
  of each node. Stage 1's `conf.Check` outcome is one boolean per package.
  `types.Identical` on signatures is a parameter. On interfaces (`pkg/linter/linter.go:518`
  and `:602`) it is modelled by the method-set comparison of `isSameInterface`. The source
  defines `isSameInterface` but never calls it; here it serves only as that stand-in.
- The external checker (staticcheck run as a subprocess) is an oracle parameter.
- File system effects are not modelled:
  - temporary directories, `copyProject`, `printer.Fprint` and file writes;
  - in stage 2, the `continue` after a failed create, print or restore;
  - in the text prototype, read and write errors after the copy loop.

  Only the text prototype's copy failure is modelled, as a missing path.
- Printed output is not modelled:
  - the UNUSED, OK and `USED` lines, the debug output and `printGenericWarnings`;
  - the stage 2 reports, which the model returns rather than prints.

  The hard-coded `test/data` prefix of the stage 1 and stage 2 messages is not reproduced.
- Source positions (line numbers) and `getRelativePath` are left out, because they only affect
  printed text.
- `cmd/v1` and `cmd/v2` are not part of this model. They only call the modelled functions in
  sequence.
- Linter.UnusedMethodLinter.FindUnusedMethods: the reports are stated as a multiset, not in
  print order. The order follows Go's unspecified map iteration.
- Stage2.FindUnusedMethods: the reports are stated by membership. Their order and multiplicity
  follow Go's unspecified map iteration.
- LinterRender.ParseRendered: the read-back covers only ASCII identifiers and the renderable
  subset. Variadic and other expressions that `typeToString` renders as `unknown` have no
  inverse.
- Try.CheckCode: the repository's test expects a specific method to be reported. That depends on
  what staticcheck decides, so it is not a property of the model.
- The single-pass linter skips a bare selector whose identifier resolves to any variable
  (`pkg/linter/linter.go:469`), not only to a struct field, as the comment at
  `pkg/linter/linter.go:468` says. It also skips one whose identifier resolves to nothing
  (`pkg/linter/linter.go:467`). The model follows the code: `BareSelectorExamined`.

## Findings

| source | as written | input that shows it | evidently intended | confidence | as-written member | corrected member |
|---|---|---|---|---|---|---|
| pkg/stage2/stage2.go:227-260 | A method's deletion stays in the parsed file after its check; only the scratch copy on disk is restored. Later checks of the same file see every earlier deletion | `type I interface { A(); B() }`, stage 1 records neither, and the checker fails whenever A is deleted. The check for A fails, but A stays deleted, so the check for B also fails and B is never reported | Each check sees the original file with only that method deleted, so I.B is reported | high (not executed) | Stage2.CompoundingDeletionsHideUnused | Stage2.CheckInterfaceRestoring, Stage2.CheckFileRestoring |
| pkg/try/try.go:185 | Inside the interface, any line that contains `name(` is dropped | Removing `Name` from an interface that also declares `GetName() string` drops the `GetName` line too | Drop only the line that declares the method | high (not executed) | Try.SubstringMatchDropsOtherMethod | Try.RemoveMethodExact |
| pkg/try/try.go:185-194 | A matched line is dropped by `continue` before the `}` test, so the region stays open after it | Removing M from `type I interface { M() }` followed by `x.M()`: both lines are dropped, although the call lies outside the interface | The region closes at the interface's `}`, whether that line is kept or dropped | medium (not executed) | Try.OneLineInterfaceDropsLaterCall | Try.BraceClosesRegion, Try.OneLineInterfaceKeepsLaterCall |

In every row the main operations model the code as written: `Stage2.FindUnusedMethods` uses
`Stage2.CheckFile`, and `Try.CheckCode` uses `Try.RemoveMethod` with `Try.Scan`. The corrected
definitions sit beside them, with their properties proved:

- `Stage2.IsolatedReportsExactly` and `Stage2.IsolatedReportsUnused`;
- `Try.ExactMatchKeepsOtherMethods`;
- `Try.ScanClosing`, with `Try.BraceClosesRegion`, `Try.ClosingAgreesWithoutBraceMatch` and
  `Try.OneLineInterfaceExample`.
