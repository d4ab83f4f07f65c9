# werf: decision logic, modelled and proved in Dafny

werf builds images from a git repository, publishes them to a registry and cleans both the
registry and the build host. Between the calls to git, docker and the registry it takes
decisions of its own: which directories of a tree can be skipped, where the documents of a
configuration end, in which order images can be built, what a resource is called, what a path
in a commit really points to, which stages may be deleted. This project models these decisions
as the Go code takes them and proves what they promise, for all inputs.

`dafny verify dfyconfig.toml` checks everything. There is one module per file, with the name of
the file.

| module | models |
|---|---|
| Globs, GlobProgress, SteadyGlobs, Matchers | the path matchers: what a glob matches, the step-by-step form that prunes directories, the globs for which pruning loses nothing, and all matchers built from these |
| TreeWalk, LsTree, Submodules | the walk over a container file system and the listing of a git tree, which ask a matcher about directories, and what becomes of submodules |
| YamlDocs | the byte state machine that splits werf.yaml into documents, against a line grammar |
| Digraph | finite graphs: walks, cycles, reachability, longest walks, rounds |
| ImageGraph, ImageSets | image dependencies: loop validation, the cached lookup, the closure of a request, the sets of independent images |
| Slugs, Names | slugs, size-limited slugs, and the names built from them |
| Symlinks | resolving a path in a commit through symbolic links |
| StageClosure, KeptStages, StageOrder, Cleanup, CleanupOrder | which registry stages a cleanup keeps: one run, all runs, all orders of the runs, the managers that change state, and an example in two orders |
| HostImages | freeing space on a host: the list of images and the loop that removes them |
| IncludesLock | the lock table of includes |
| Common | what several modules share |

The code works in two styles and so does the model. Loops that update variables are methods with
invariants; configuration, stage manager and cleanup manager are classes whose methods change
their fields. Each such method is tied by its `ensures` to a function or a predicate of its
inputs and the old state, and what the code is for is proved about that function or predicate.

## What turned out

Some promises hold only under a condition. Each of the following comes with a concrete input or
family of inputs, and with the exact condition.

- **Pruning can lose files.** The step function never moves past a component that merely contains
  `**` (pkg/path_matcher/common.go:40). For `a**/c/d` the file `a1/c/d` is matched and the
  directory `a1/c` is skipped (`UnsteadyGlobLosesFile`). For a single glob, a directory above a
  matched file is wrongly skipped if and only if the glob does not match the directory and has
  stalled there: some segment from that component on is not accepted by it (`SingleGlobPruning`).
  For a list of globs, one is skipped exactly when no glob of the list is alive there
  (`IncludePruning`). Exclude globs stall in the same way and take directories as a whole that
  hold excluded files, under the same conditions (`SingleExcludePruning`, `ExcludePruning`,
  `UnsteadyGlobTakesTooMuch`). Which globs do this is a property of the glob alone (`Steady`): with
  one glob no file is ever lost, and nothing excluded is ever taken along, if and only if the glob
  is steady (`SteadyLosesNothing`, `SteadyExactly`). It is not when it matches anything at all, its
  first component whose text contains `**` is not one of asterisks, and something after that
  component takes a segment on the way which the component does not accept. Globs that use `**`
  as a whole component only are steady, and so are those with at most one component after it
  (`SimplySteady`). In larger matchers, not losing files needs steady include globs only, and
  taking directories as a whole steady exclude globs only.
- **A matched directory may be gone through.** The comment at pkg/path_matcher/interface.go:9-10
  says that a completely matched directory is not gone through. With the globs `a` and `a/b` the
  directory `a` is matched and gone through (`MatchedYetThrough`). Exactly when that happens is
  proved for every matcher (`MatchedThrough`). For one include glob: its first component whose
  text contains `**` is not among its trailing asterisks, and the glob has not stalled at the
  directory (`SingleMatchedThrough`). For a list: no glob is universal, no glob that matches the
  directory has only asterisks left, and some glob goes on below it (`IncludeMatchedThrough`).
  For exclude globs: some glob is alive at the directory (`ExcludeMatchedThrough`). Multi and
  base path matchers hand the question to their parts. The model follows the code.
- **Nested submodules can be lost.** A submodule that lists nothing of its own is not reported, and
  the results of its submodules go with it (pkg/true_git/ls_tree/ls_tree.go:306-315). With a glob
  for one file of a nested submodule, that file is matched and not listed
  (`NestedSubmoduleLost`). A listing stands for all files it should if and only if this happens
  nowhere in the tree (`LsTreeEntry`). It never does without submodules (`NothingLost`), nor when
  the `.gitmodules` file of every submodule that has submodules is matched too
  (`GitmodulesKeepAll`), as it is when all files are.
- **Images can be tried twice.** The list of images to remove joins the answers to three queries,
  and a v1.1 stage answers the first two (pkg/host_cleaning/local_backend_cleaner.go:117-153). It is
  listed twice, its size counts twice, and it is reported twice if both attempts succeed, as in
  a dry run (`LegacyImageTwice`). No image is listed twice if and only if no image of the host
  is a v1.1 stage, or labelled and a service image at once (`ListedOnce`); none can be
  reported twice if and only if the ids of the entries that were tried are distinct
  (`ReportedOnce`).
- **Joined documents split back into themselves if and only if every document but the last ends
  its last line** (`SplitUndoesJoin`). The join that renders chosen images does not see to that.
- **Validation and grouping follow different dependencies.** A stapel image that bears the name of
  its own base image (an image `alpine` from `alpine`) passes validation, and grouping it never
  ends (`ValidatedYetGroupedForever`). Grouping finishes if and only if the graph it follows
  has no circle within reach of the request (`RoundsFinish`, `GroupingEnds`), so this is the
  precondition of the grouping method.
- **Slugs.** The branch of `slug` for a crop that starts with a dash is never taken
  (`CropNeverStartsWithDash`). The branch of `shouldBeSlugged` for two dashes in a row accepts exactly
  two slugs with two dashes between them (`LeftAlone`), which is what a crop that ends on a dash
  builds. `LimitedSlug` is idempotent for every limit of hash length plus two or more; with one less,
  naming a name again changes it unless both have the same hash (`TightLimit`). A project name is
  valid, and stable, if and only if its slug is not cut right after a dash (`ProjectIsValid`).
- **The depth limit of symbolic links** refuses nothing but circles in all commits with `n` links if and
  only if `n` is at most 1000 (`LimitRefusesOnlyCircles`, `LimitIsSharp`).
- **The registry cleanup depends on the order of a Go map.** Runs share one set of handled stages,
  but only some of them follow import and dependency sources. Of two stages to keep, visiting
  the one kept by the git policy first deletes a source (`SourceLostGitFirst`) that visiting it
  last keeps (`SourceKeptGitLast`). What is wanted is what all runs would keep if each had a set
  of its own. No order keeps more; with the git policy last all of it is kept
  (`GitPolicyLastKeepsAll`); with the git policy first as little is kept as in any order
  (`LeastIsKept`, `GitPolicyFirstKeepsLeast`). So for given protected stages nothing that is wanted
  is deleted in any order if and only if a condition holds that can be read from the registry
  before any run (`EveryOrderKeepsAll`): the relatives of stages that runs of both kinds would
  meet are kept even in that worst case.
- **An abbreviated commit is locked but not found.** The lock is keyed by the resolved hash and
  looked up by the text in the config (`AbbreviatedCommitNotFound`). For every config and every include, a
  commit is found if and only if the first include with the same id gives a branch, a tag or a
  full hash, or an include of another repository happens to be locked under the same text. In the
  absence of the latter, the commit found is that of the first include unless it gives a branch
  or tag that bears a full hash as its name and a later include abbreviates that hash
  (`LockFinds`).

## What is taken as given

Paths are cleaned and stand as sequences of segments; the root, written `""` or `"."` by the code,
is the empty sequence. Globs are sequences of components. These libraries are not
part of this model and are represented by their documented behaviour: `doublestar.PathMatch`,
`filepath.Rel` and `path.Join`, the sub-path and trimming helpers of werf's common library
(trimming drops trailing components made only of asterisks; a base path contains what lies strictly
below it), the Kubernetes name validators (labels of section 2.1 of RFC 1123 and, for Helm releases,
labels separated by dots), and the murmur hash (a 32-bit number in hexadecimal: one to eight letters
and digits). A commit that git finds is given by a full hash, which is found again under itself. Of the
rune table only three facts are used: its values are empty, a dash, or letters and
digits, and it leaves letters, digits and dashes of slugs alone. The bytes of a YAML
text are characters. The volume measurements, removals, commit lookups and tree entries are
parameters. Wherever the code iterates over a Go map or set, the order is left open and the result
is proved for every order. The parent of a stage by image id is the first stage that a scan
of a set meets; as no stage is handled twice in a cleanup, any function that picks one stands
for any such scans (`firstParent`). A backend lists an
image once in each answer, and sorting leaves the order of equals open. 64-bit sums in the host
cleanup wrap around explicitly.

Preconditions are those the code relies on: related images exist when loops are validated and
images are grouped (the preceding validation), includes are validated before they are locked, the
entries of a commit lie in directories, the stages of a registry are found by their ids.

## Model

| member | source | states |
|---|---|---|
| Globs.Trim | pkg/path_matcher/common.go:73-96 | trimming yields a prefix that ends in a pattern, and drops nothing but asterisks |
| Globs.MatchMeans | pkg/path_matcher/common.go:73-96 | matching component by component: `**` takes any number of segments, every other component one |
| Globs.MatchSplits | pkg/path_matcher/common.go:73-96 | a match of a trimmed glob followed by anything lies at or below a match of the trimmed glob |
| Globs.MatchExtends | pkg/path_matcher/common.go:73-96 | conversely the trimmed glob with `**` and `*` appended matches everything strictly below its own matches |
| Globs.MatchedMeansCovered | pkg/path_matcher/common.go:73-96 | below the root the three forms of a glob together say: the trimmed glob matches the path or an ancestor of it, and nothing else |
| Globs.RootMatched | pkg/path_matcher/common.go:73-96 | which globs match the root: universal ones, and single patterns that accept the empty string |
| Globs.MatchedDownward | pkg/path_matcher/common.go:73-96 | what a glob matches is closed under going down the tree (from the root only for universal globs) |
| GlobProgress.StepFromRest | pkg/path_matcher/common.go:31-47 | one step of the matcher on what is left of a glob: in progress, complete or dead exactly as the closed form over the whole path says |
| GlobProgress.AdvanceStep | pkg/path_matcher/common.go:18-29 | the same for lists: one step takes the globs in progress after a path to those after the path with one more segment, in order |
| GlobProgress.MatchGlobs | pkg/path_matcher/common.go:18-29 | the loop collects the globs in progress and the completed ones, in order |
| GlobProgress.HasUniversalGlob | pkg/path_matcher/common.go:49-61 | found if and only if some glob is empty once trailing asterisks are dropped |
| GlobProgress.IsAnyPatternMatched | pkg/path_matcher/common.go:63-71 | found if and only if one of the globs matches the path in one of the three forms |
| GlobProgress.ProgressDecides | pkg/path_matcher/include.go:38-69 | the final test of the loop means: some glob is alive at the directory and no glob alive there is universal from there on |
| GlobProgress.IncludeShouldGoThrough | pkg/path_matcher/include.go:38-69 | the segment loop with its early exit computes the closed form of going through for include globs |
| GlobProgress.ExcludeShouldGoThrough | pkg/path_matcher/exclude.go:38-68 | the same for exclude globs, where a completed glob stops it |
| SteadyGlobs.AliveAboveMatch | pkg/path_matcher/common.go:31-47 | above a covered path, a directory not covered itself is dropped by the step function exactly when the glob has stalled |
| SteadyGlobs.SteadyNeverStalls | pkg/path_matcher/common.go:31-47 | steady globs never stall above what they cover |
| SteadyGlobs.UnsteadyStalls | pkg/path_matcher/common.go:31-47 | every other glob stalls above some path that it covers |
| SteadyGlobs.SteadyExactly | pkg/path_matcher/common.go:31-47 | a glob never stalls above a path it matches if and only if it is steady, a condition on its components |
| SteadyGlobs.SimplySteady | pkg/path_matcher/common.go:31-47 | globs with `**` as a whole component only, or with at most one component after it, are steady |
| Matchers.SteadyLosesNothing | pkg/path_matcher/include.go:19-69 | for one glob: no directory above a matched file is skipped, and none that holds something excluded is taken as a whole, if and only if the glob is steady |
| Matchers.UniversalRestMatched | pkg/path_matcher/include.go:19-69 | a glob universal from a directory on has matched the directory, so the early exit skips nothing |
| Matchers.IncludePruning | pkg/path_matcher/include.go:19-69 | exact reach of pruning for a list of globs: skipped if and only if no glob is alive, and the glob that matches the file is alive unless stalled |
| Matchers.SingleGlobPruning | pkg/path_matcher/include.go:19-69 | for one glob a directory above a matched file is lost if and only if the glob does not match it and has stalled there |
| Matchers.UnsteadyGlobLosesFile | pkg/path_matcher/common.go:31-47 | `a**/c/d` matches a1/c/d and skips a1/c |
| Matchers.MatchedYetThrough | pkg/path_matcher/interface.go:5-12 | with globs like `a` and `a/b` a matched directory is gone through |
| Matchers.MatchedGlobInProgress | pkg/path_matcher/common.go:31-61 | for a glob that matches a directory: when it goes on below it, and when only asterisks are left of it |
| Matchers.SingleMatchedThrough | pkg/path_matcher/include.go:19-69 | for one glob a matched directory is gone through if and only if the glob has a `**` before its trailing asterisks and has not stalled |
| Matchers.IncludeMatchedThrough | pkg/path_matcher/include.go:19-69 | for a list: if and only if no glob is universal, none that matches is down to asterisks, and some glob goes on below |
| Matchers.MatchedThrough | pkg/path_matcher/interface.go:5-12 | for every matcher exactly when a matched directory is gone through all the same |
| Matchers.OptionsMatch | pkg/path_matcher/factory.go:11-41 | the matcher of a set of options matches exactly what is at or below the base, selected there by the globs, and matched by the other matchers; everything if there are no globs |
| Matchers.MultiEnters | pkg/path_matcher/multi.go:27-49 | a multi matcher matches, and enters, exactly what all of its parts do |
| Matchers.InsideBase | pkg/path_matcher/base_path.go:19-50 | at or below the base the inner matcher decides by the relative path |
| Matchers.OutsideBase | pkg/path_matcher/base_path.go:19-50 | elsewhere nothing matches, and what is above the base is gone through |
| Matchers.IncludeKeepsAncestors | pkg/path_matcher/include.go:19-69 | no false pruning for steady include globs |
| Matchers.IncludeTakesWhole | pkg/path_matcher/include.go:19-69 | a directory matched and not gone through holds matched paths only |
| Matchers.ExcludeKeepsAncestors | pkg/path_matcher/exclude.go:19-68 | above a path that is not excluded no directory is skipped, for any globs |
| Matchers.ExcludeTakesWhole | pkg/path_matcher/exclude.go:19-68 | a directory not excluded and not gone through holds nothing excluded |
| Matchers.ExcludeMatchedThrough | pkg/path_matcher/exclude.go:19-68 | a directory that is not excluded is gone through if and only if some glob is alive there |
| Matchers.ExcludeThrough | pkg/path_matcher/exclude.go:38-68 | for any directory, excluded or not, exactly when it is gone through |
| Matchers.ExcludePruning | pkg/path_matcher/exclude.go:19-68 | exact reach of taking directories as a whole, for a list: if and only if no glob is alive, and the glob that excludes a path below is alive unless stalled |
| Matchers.UnsteadyGlobTakesTooMuch | pkg/path_matcher/exclude.go:38-68 | `a**/c/d` excludes a1/c/d, and a1/c is taken as a whole |
| Matchers.SingleExcludePruning | pkg/path_matcher/exclude.go:19-68 | for one glob a directory with an excluded path is taken as a whole if and only if the glob does not match it and has stalled there |
| Matchers.EntersAncestors | pkg/path_matcher/multi.go:27-49 | no false pruning for every matcher built from include, exclude, base path, multi and constant matchers with steady include globs |
| Matchers.TakesWhole | pkg/true_git/ls_tree/ls_tree.go:334-348 | for every such matcher with steady exclude globs a directory taken as a whole is matched through and through |
| Matchers.IsPathMatchedBy | pkg/path_matcher/base_path.go:19-50 | the recursive methods of all matchers decide the meaning of a match |
| Matchers.ShouldGoThrough | pkg/path_matcher/base_path.go:19-50 | and whether a directory is gone through |
| Matchers.MultiShouldGoThrough | pkg/path_matcher/multi.go:37-49 | the flag loop: some matcher goes through, and every other one goes through or matches |
| TreeWalk.NothingBelow | pkg/container_backend/buildah_backend.go:256-277 | below a directory that is not entered there is no matched file |
| TreeWalk.Walk | pkg/container_backend/buildah_backend.go:256-277 | for every matcher the pruned walk returns, in order, exactly the matched files with no skipped directory above them, and fails exactly if an unreadable directory is entered |
| TreeWalk.WalkIsComplete | pkg/container_backend/buildah_backend.go:256-277 | that is the full filter of the tree if and only if no matched file lies below a skipped directory, as for all steady include globs |
| TreeWalk.FilesAre | pkg/container_backend/buildah_backend.go:256-277 | the files of a tree are exactly those found by following names from its root |
| TreeWalk.FailsMeans | pkg/container_backend/buildah_backend.go:256-277 | a walk fails if and only if some unreadable directory is entered with all directories on the way |
| TreeWalk.ImportedFiles | pkg/container_backend/buildah_backend.go:246-277 | the files of an import: at or below the path, matched by some include glob if there are any and by no exclude glob; all of them without globs |
| TreeWalk.ConstantMatchersFind | pkg/path_matcher/true.go:10-20 | the true matcher finds every file and the false matcher none |
| LsTree.LsTreeEntry | pkg/true_git/ls_tree/ls_tree.go:209-332 | for every matcher: an error exactly if something unreadable or unregistered is to be walked; otherwise entries in order and submodule results stand for no file twice and for none that should not be listed, and for all that should if and only if no walked submodule lists results of its own submodules only; with all files wanted only files are named |
| LsTree.LsTreeWalk | pkg/true_git/ls_tree/ls_tree.go:190-207 | the same for all entries of a tree |
| LsTree.SubmoduleListed | pkg/true_git/ls_tree/ls_tree.go:306-315 | what dropping a submodule without entries of its own does to a listing |
| LsTree.ReportsMatched | pkg/true_git/ls_tree/ls_tree.go:334-348 | walking, taking whole or skipping the directories above a file decides as the matcher decides for the file, if the globs are steady |
| LsTree.ListingIsComplete | pkg/true_git/ls_tree/ls_tree.go:190-348 | the files that should be listed are then exactly the matched files |
| Submodules.NothingLost | pkg/true_git/ls_tree/ls_tree.go:266-332 | without submodules nothing is lost and the entries alone stand for everything |
| Submodules.GitmodulesKeepAll | pkg/true_git/ls_tree/ls_tree.go:306-315 | nothing is lost when the files that register nested submodules are matched |
| Submodules.NestedSubmoduleLost | pkg/true_git/ls_tree/ls_tree.go:306-315 | with a glob for one file of a nested submodule, all submodules registered, the file is matched, nothing fails, and the file is lost |
| YamlDocs.SplitContent | pkg/config/parser.go:616-708 | the state machine cuts every input into the documents of the line grammar, with all slices in bounds |
| YamlDocs.SeparatorGrammar | pkg/config/parser.go:634-690 | separator lines character by character: `---`, spaces, tabs or carriage returns, and possibly a comment without a dash |
| YamlDocs.HasSeparatorLine | pkg/config/parser.go:616-708 | a document holds a separator if and only if one of its lines is a separator line |
| YamlDocs.SplitRebuilds | pkg/config/parser.go:616-708 | nothing is lost: separator lines put back between the documents give the input, and no document holds a separator line |
| YamlDocs.SplitFromRebuilds | pkg/config/parser.go:616-708 | the same from any line on, with whole lines already in the current document |
| YamlDocs.SplitIsUnique | pkg/config/parser.go:616-708 | the grammar leaves one way to cut an input: any documents and separators that are well formed are the ones found |
| YamlDocs.SeparatorStates | pkg/config/parser.go:616-708 | the states after three dashes are reached exactly on separator lines |
| YamlDocs.OnDash | pkg/config/parser.go:634-650 | a dash: state and separator length keep agreeing with the line read so far, also inside a comment |
| YamlDocs.OnNewline | pkg/config/parser.go:651-663 | a newline: what was cut and what is still to come stay the documents of the input |
| YamlDocs.OnBlank | pkg/config/parser.go:664-673 | a space, tab or carriage return: the agreement is kept |
| YamlDocs.OnHash | pkg/config/parser.go:674-681 | a hash sign: the agreement is kept |
| YamlDocs.OnOther | pkg/config/parser.go:682-688 | any other byte: the agreement is kept |
| YamlDocs.OnEnd | pkg/config/parser.go:692-705 | the code after the loop adds exactly what is still to come |
| YamlDocs.SplitUndoesJoin | pkg/config/parser.go:66-79 | splitting joined documents gives them back if and only if all but the last end their last line |
| YamlDocs.EmptyDocContent | pkg/config/parser.go:710-731 | true if and only if every byte but spaces, tabs, carriage returns and newlines stands at or after a hash sign on its line |
| YamlDocs.SplitByDocs | pkg/config/parser.go:209-229 | the documents that are not empty, each with the number of newlines above it in the input |
| Digraph.AcyclicMeansDistinct | pkg/config/werf.go:115-135 | no walk returns to its start if and only if no walk meets any node twice |
| Digraph.TakenHaveShortWalks | pkg/config/werf.go:137-171 | after k rounds exactly the nodes without a walk of k edges are taken |
| Digraph.RoundTakesLongest | pkg/config/werf.go:137-171 | round k takes exactly the nodes whose longest walk has k edges |
| Digraph.LongestIsUnique | pkg/config/werf.go:137-171 | a node has one longest walk length, so an image is in one set only |
| Digraph.RoundTakesSomething | pkg/config/werf.go:137-171 | without circles no round is empty while anything is left |
| Digraph.RoundsFinish | pkg/config/werf.go:137-171 | the rounds take every node if and only if there is no circle |
| ImageGraph.Lookup | pkg/config/werf.go:58-73 | the image found bears the name; none is found only if no image bears it |
| ImageGraph.LookupIsFirst | pkg/config/werf.go:58-73 | it is the first image of the name |
| ImageGraph.ValidatedNames | pkg/config/werf.go:214-224 | validation looks at dependencies and, for stapel images, at imports and the artifact base |
| ImageGraph.GroupedNames | pkg/config/werf.go:239-257 | grouping looks at dependencies and, for stapel images, at imports and at any base that the config has |
| ImageGraph.ValidatedEdges | pkg/config/werf.go:115-135 | the graph of validation has exactly the edges from a name to the names its image gives |
| ImageGraph.Successors | pkg/config/werf.go:173-201 | the graph of grouping has exactly the edges from an image to the images its fields name |
| ImageGraph.LoopIsReal | pkg/config/werf.go:115-135 | the names reported with an error are a walk along dependencies that ends on a name met before |
| ImageGraph.NoLoopMissed | pkg/config/werf.go:115-135 | if nothing is reported no walk from the image meets a name twice or reaches the stack |
| ImageGraph.LoopValidation | pkg/config/werf.go:105-135 | validation succeeds if and only if the validated dependencies have no circle, and otherwise reports a real one |
| ImageSets.WerfConfig.GetImage | pkg/config/werf.go:58-73 | the cached lookup is the scan for the first image of the name; hits, and only hits, enter the cache |
| ImageSets.WerfConfig.UpdateDependencies | pkg/config/werf.go:239-257 | the dependencies that grouping follows; exactly a stapel base that names no image is marked external |
| ImageSets.WerfConfig.RelativesOf | pkg/config/werf.go:173-201 | the direct dependencies of one image, looked up by name in order |
| ImageSets.WerfConfig.ImagesNamed | pkg/config/werf.go:173-201 | the images of a list of names, in order |
| ImageSets.WerfConfig.EnqueueNew | pkg/config/werf.go:173-201 | exactly the images not handled yet join the queue, and no handled entry is added |
| ImageSets.WerfConfig.GetImageRelatives | pkg/config/werf.go:173-201 | ends on every graph; the table holds exactly the images reached from the request, each with its direct dependencies, and marks their external bases |
| ImageSets.ExploreProgress | pkg/config/werf.go:173-201 | why it ends although images are queued repeatedly: a new image is handled, or a handled entry leaves the queue |
| ImageSets.WerfConfig.GetSpecificImages | pkg/config/werf.go:23-35 | the images of the requested names, in order |
| ImageSets.WerfConfig.CollectReady | pkg/config/werf.go:137-171 | one pass in any order collects each image whose dependencies are all checked once, and no other |
| ImageSets.WerfConfig.GroupRounds | pkg/config/werf.go:137-171 | set k of the table is the images whose longest chain has k links; no set is empty and every image is in one |
| ImageSets.WerfConfig.GroupImagesByIndependentSets | pkg/config/werf.go:137-171 | set k holds exactly the images reached from the request with a longest chain of k links, each once, and no set is empty; whatever an image names as an import, a dependency or its base is in a strictly earlier set, and every requested image is in some set |
| ImageSets.DependenciesComeFirst | pkg/config/werf.go:137-171 | every dependency of an image is in a strictly earlier set |
| ImageSets.NamedComeFirst | pkg/config/werf.go:137-171 | the same by the fields of the images |
| ImageSets.MarkedAre | pkg/config/werf.go:239-257 | exactly the stapel images whose base bears the name of no image of the config are marked as having an external base |
| ImageSets.GroupingEnds | pkg/config/werf.go:137-171 | the rounds over the images reached from a request end if and only if no dependency circle is reached from it |
| ImageSets.ValidatedYetGroupedForever | pkg/config/werf.go:239-257 | an image named like its own base passes validation and is taken by no number of rounds |
| Slugs.SlugifyRunes | pkg/slug/slug.go:209-241 | the loop with its flags computes the words of the mapped text joined by single dashes |
| Slugs.MappedParts | pkg/slug/slug.go:209-241 | the text is mapped rune by rune, in order |
| Slugs.MappedOne | pkg/slug/slug.go:209-241 | each rune becomes what the table gives for it |
| Slugs.LenParts | pkg/slug/slug.go:40-74 | the size in bytes of a text is that of its parts |
| Slugs.LenOne | pkg/slug/slug.go:40-74 | one byte for an ASCII rune, and the bytes of any other |
| Slugs.WordsAre | pkg/slug/slug.go:209-241 | however a text is cut into words with dashes between, these are the words found |
| Slugs.CutIntoWords | pkg/slug/slug.go:209-241 | every text can be cut in such a way |
| Slugs.SlugifyMeans | pkg/slug/slug.go:209-241 | slugify gives the words of the mapped text with one dash between any two and none at the ends |
| Slugs.SlugifyLanguage | pkg/slug/slug.go:209-241 | slugify lands in letters and digits with single inner dashes, fixes exactly that language, and is idempotent |
| Slugs.DoubledOnceMeans | pkg/slug/slug.go:40-74 | one pair of dashes whose replacement is a slug: exactly two slugs with two dashes between them |
| Slugs.LeftAlone | pkg/slug/slug.go:40-74 | which texts are left as they are: the empty one, and within the limit slugs and two slugs with two dashes between |
| Slugs.CropNeverStartsWithDash | pkg/slug/slug.go:174-207 | the crop starts with no dash and leaves room for a dash and the hash |
| Slugs.SlugShape | pkg/slug/slug.go:174-207 | what slug builds, for every text: within the limit, ending in a letter or digit, and of the form that is left alone when the limit has room |
| Slugs.SlugIs | pkg/slug/slug.go:174-207 | as much of the slug as the limit leaves room for, a dash and the hash of the original text; the hash alone if nothing is left of the text |
| Slugs.LimitedSlugIdempotent | pkg/slug/slug.go:32-38 | never longer than the limit, stable and idempotent, for every text and every limit of the length of its hash plus two or more |
| Slugs.TightLimit | pkg/slug/slug.go:197-207 | with a limit one lower the name is a dash and the hash, has to be slugged again, and is stable if and only if both hashes agree |
| Names.SlugIsLabel | pkg/slug/slug.go:174-195 | what slug builds is a label within the limit |
| Names.DockerTagGrammar | pkg/slug/slug.go:98-111 | which docker tags are valid, character by character, up to 128 bytes |
| Names.LabelGrammar | pkg/slug/slug.go:131-145 | which namespaces and projects are valid, up to 63 and 50 bytes |
| Names.HelmReleaseGrammar | pkg/slug/slug.go:154-168 | which releases are valid, up to 53 bytes |
| Names.ValidNamesStay | pkg/slug/slug.go:98-152 | a name is left alone if and only if it is valid, and slugged with its limit otherwise |
| Names.NamesAreValid | pkg/slug/slug.go:98-168 | docker tags, namespaces and releases pass their own validators and are stable, for every input |
| Names.ProjectIsValid | pkg/slug/slug.go:76-96 | a project fits 50 bytes, and is valid and stable if and only if the slug is not cut after a dash |
| Names.ProjectIs | pkg/slug/slug.go:76-85 | a project name that is not valid becomes the first 50 bytes of its slug |
| Symlinks.JoinLeaves | pkg/git_repo/base.go:763-777 | a link leaves the tree if and only if its parts at some point go up further than the tree is deep; otherwise the depths add up |
| Symlinks.JoinReaches | pkg/git_repo/base.go:763-777 | up to the root and down by names leads to any path |
| Symlinks.LinkLeadsFromItsDirectory | pkg/git_repo/base.go:763-790 | a link is followed from its own directory up and down to its target, before the rest of the path; refused by the check of that target, not found if it leaves the tree or is absolute, an error if it cannot be read |
| Symlinks.LinkInTheMiddle | pkg/git_repo/base.go:746-796 | what is past a link is resolved as if it were past its target |
| Symlinks.MissingEntry | pkg/git_repo/base.go:746-762 | a name that a directory does not have is not found, and one that cannot be read is an error |
| Symlinks.ResolveCommitFilePath | pkg/git_repo/base.go:721-797 | the loop with its recursive call computes the resolution with the levels that are left, failed reads included |
| Symlinks.ResolvedIsEntry | pkg/git_repo/base.go:721-797 | a result is an existing entry of the tree that is no link, and resolves to itself |
| Symlinks.ShortcutAgrees | pkg/git_repo/base.go:727-741 | the shortcut for entries that are no links gives what the walk over the parts gives |
| Symlinks.MoreLevels | pkg/git_repo/base.go:721-797 | any outcome but running out of levels is the same with more levels |
| Symlinks.CheckedResolve | pkg/git_repo/base.go:763-777 | with a check a path resolves to q if and only if it does so without and all link targets on the way pass |
| Symlinks.EnoughLevels | pkg/git_repo/base.go:721-797 | one level more than there are links is as good as any number of levels |
| Symlinks.LimitRefusesOnlyCircles | pkg/git_repo/base.go:722-725 | with at most 1000 links the limit refuses a path if and only if every limit would |
| Symlinks.LimitIsSharp | pkg/git_repo/base.go:722-725 | for every n: the limit refuses only circles in all trees with n links if and only if n is at most 1000 |
| StageClosure.StageManager.MarkStageAsProtected | pkg/cleaning/stage_manager/stages.go:74-89 | one stage becomes protected, and the first reason stays |
| StageClosure.HandleWaiting | pkg/cleaning/cleanup.go:1056-1113 | handling one stage of the worklist keeps the invariant of a run |
| StageClosure.RunEnds | pkg/cleaning/cleanup.go:1055-1116 | when the worklist is empty, exactly what chains of relatives lead to was met and handled |
| StageClosure.SourcesAre | pkg/cleaning/cleanup.go:1067-1095 | the sources of a stage are exactly the stages recorded for its import checksum labels, external images excepted, and those that its dependency labels name |
| StageClosure.ParentsAre | pkg/cleaning/cleanup.go:1097-1113 | its parents are exactly the stage that its label names and the first one with the image id it gives |
| StageClosure.RunKeepsSources | pkg/cleaning/cleanup.go:1060-1095 | when a run past handled stages has, with these, all that a run of its own would meet: if and only if the relatives of the handled or otherwise safe stages that such a run would meet are there |
| StageClosure.MetMore | pkg/cleaning/cleanup.go:1060-1113 | more is met with sources, from a larger start, and with fewer stages handled before |
| KeptStages.KeptSoFar | pkg/cleaning/cleanup.go:859-873 | after any number of runs handled stages have their parents handled, those of runs with sources their sources too, and nothing is handled that is not wanted |
| KeptStages.GitPolicyLastKeepsAll | pkg/cleaning/cleanup.go:862-871 | with the git policy last all that is wanted is kept |
| StageOrder.LeastIsKept | pkg/cleaning/cleanup.go:859-873 | no order keeps less than the runs without sources meet by themselves and the others meet past that |
| StageOrder.GitPolicyFirstKeepsLeast | pkg/cleaning/cleanup.go:862-871 | with the git policy first exactly that is kept |
| StageOrder.EveryOrderKeepsAll | pkg/cleaning/cleanup.go:859-889 | nothing wanted is deleted in any order of the runs if and only if a condition on the registry and the protected stages holds |
| KeptStages.ParentsKept | pkg/cleaning/cleanup.go:1097-1113 | in any order protected stages but index stages are kept, and what is kept has its parents kept |
| KeptStages.PlatformsKept | pkg/cleaning/cleanup.go:1033-1053 | in any order an index stage keeps a platform image for every digest that has one |
| KeptStages.SourcesKept | pkg/cleaning/cleanup.go:1067-1095 | with the git policy last, whatever runs with sources meet has its sources kept |
| Cleanup.ProtectedArePromised | pkg/cleaning/cleanup.go:862-871 | a stage protected for another reason than the git policy is met with its sources |
| Cleanup.CleanupManager.AddSources | pkg/cleaning/cleanup.go:1067-1095 | exactly the stages named by import and dependency labels join the worklist and become protected |
| Cleanup.CleanupManager.AddParents | pkg/cleaning/cleanup.go:1097-1113 | exactly the labelled parent and the first stage with the parent's image id join the worklist and become protected |
| Cleanup.CleanupManager.HandleStage | pkg/cleaning/cleanup.go:1067-1113 | both together: exactly the relatives of a stage join and become protected, each for one of the three reasons |
| Cleanup.CleanupManager.PlatformStages | pkg/cleaning/cleanup.go:1033-1053 | an index stage stands for stages of its digests, one at least for each digest that has any |
| Cleanup.CleanupManager.ProtectClosure | pkg/cleaning/cleanup.go:1055-1116 | the worklist ends on every registry, and handles and protects exactly what chains of relatives lead to past the stages handled before |
| Cleanup.CleanupManager.ProtectRelatives | pkg/cleaning/cleanup.go:1032-1116 | the same for one target, with index stages replaced by their platforms |
| Cleanup.CleanupManager.ProtectAllRelatives | pkg/cleaning/cleanup.go:859-873 | all runs in any order handle and protect exactly the kept stages, each run past the stages of those before it |
| Cleanup.CleanupManager.StagesToDelete | pkg/cleaning/cleanup.go:859-889 | exactly what is deleted; no protected stage; of a protected stage that is no index, neither the labelled parent nor all stages with the parent's image id; not all platforms of a digest; with the git policy last, nothing that labels give as a source of a stage protected for another reason, or met from one |
| CleanupOrder.SourceLostGitFirst | pkg/cleaning/cleanup.go:862-871 | with the git policy first the source of a kept parent is deleted |
| CleanupOrder.SourceKeptGitLast | pkg/cleaning/cleanup.go:862-871 | with the git policy last the same registry keeps it |
| HostImages.CountImagesToFree | pkg/host_cleaning/local_backend_cleaner.go:650-662 | the first index at which the sizes from the start reach the demand, or the last index; -1 exactly when there is nothing to free or no image |
| HostImages.SizesAddUp | pkg/host_cleaning/local_backend_cleaner.go:657-659 | sizes of consecutive images add up in 64-bit arithmetic |
| HostImages.RemoveImageByRepoTags | pkg/host_cleaning/local_backend_cleaner.go:554-583 | all references went away if and only if there were any and each was removed; an error if and only if asking for a lock failed |
| HostImages.RemoveImageByRepoDigests | pkg/host_cleaning/local_backend_cleaner.go:585-597 | the same for digests, which are not locked |
| HostImages.RemoveImage | pkg/host_cleaning/local_backend_cleaner.go:514-529 | by tags if there are any and otherwise by digests; an image without references is not counted as removed |
| HostImages.DeletedAre | pkg/host_cleaning/local_backend_cleaner.go:531-533 | the report names an image if and only if some entry of it was tried and had every reference removed |
| HostImages.BatchesMean | pkg/host_cleaning/local_backend_cleaner.go:512-549 | the demand of each batch is that of the last measurement before it |
| HostImages.ListedAsFound | pkg/host_cleaning/local_backend_cleaner.go:117-153 | each image of the host is in the list as often as one of the three queries finds it |
| HostImages.ListedOnce | pkg/host_cleaning/local_backend_cleaner.go:117-153 | no id is listed twice if and only if no labelled image is a v1.1 stage or a service image |
| HostImages.ReportedOnce | pkg/host_cleaning/local_backend_cleaner.go:517-537 | no image is reported twice in any world if and only if the ids of the entries tried are distinct |
| HostImages.LegacyImageTwice | pkg/host_cleaning/local_backend_cleaner.go:167-180 | a lone v1.1 stage is listed twice, counts twice and can be reported twice |
| HostImages.CleanupWerfImages | pkg/host_cleaning/local_backend_cleaner.go:499-552 | batches are consecutive and end where the demand is met, each entry of the list is tried at most once in order, the target is reached or all were tried, and the report has exactly the removed entries and the measured difference, on errors too |
| HostImages.MinusTelescopes | pkg/host_cleaning/local_backend_cleaner.go:545-547 | differences of measurements add up in 64-bit arithmetic even if usage rises between |
| IncludesLock.CreateLockConfig | pkg/includes/config.go:234-260 | an entry with its resolved commit for the first include of each id, in order; an error if and only if one of these cannot be resolved |
| IncludesLock.NewLockConfig | pkg/includes/config.go:262-276 | all entries updated in order; an error if and only if one of them fails |
| IncludesLock.ReadLockInfo | pkg/includes/config.go:179-193 | the table in which later entries replace earlier ones, or an error if an entry has no ref |
| IncludesLock.EntryKeepsId | pkg/includes/config.go:286-288 | despite the different argument orders an entry keeps the id of its include, if and only if resolving does not change a given commit |
| IncludesLock.RefsMean | pkg/includes/repo.go:121-170 | the one ref of a validated include is looked up as the commit, tag or branch it is, and the id is url, at sign and ref |
| IncludesLock.EntriesMean | pkg/includes/config.go:307-329 | an entry keeps url, branch and tag, and gets the commit that its ref is looked up as |
| IncludesLock.LockIsComplete | pkg/includes/config.go:278-284 | a fresh lock read back finds for every include the commit of the first include with its id |
| IncludesLock.LastLocked | pkg/includes/config.go:179-193 | what is found under an id is the commit of the last include locked under it |
| IncludesLock.SameRepositorySameId | pkg/includes/config.go:307-329 | two includes of one repository share an id in the lock only if one abbreviates a full hash that the other gives |
| IncludesLock.LockFinds | pkg/includes/config.go:278-284 | for every config and include: exactly when a commit is found, and exactly when it is that of the first include with the same id |
| IncludesLock.AbbreviatedCommitNotFound | pkg/includes/config.go:278-284 | a concrete abbreviated commit is locked, and looking it up finds nothing |

## Left out

- The matcher for .dockerignore files: its meaning is that of a pattern library that is not part of this model.
- Matcher identifiers and textual forms: thin wrappers without decisions.
- Globs with a slash inside braces: the code cuts a glob at every slash, and such a glob has no components of its own.
- `AutoExcludeExportAndCheck`: the intended law is not stated anywhere.
- Listing a git tree under a path scope, names and commits in submodule results, and checksums of listings.
- Cleanup.CleanupManager.StagesToDelete: the deletions themselves, final stages, custom tags and import metadata are not modelled; the set to delete is.
- Symlinks.ResolveCommitFilePath: the texts of errors are not modelled, nor the check of the file mode by its callers.
- Walking all files of a commit through directory links: nothing in the code bounds it.
- HostImages.CleanupWerfImages: what happens to each reference of an image is an answer of the world, and so is the number of bytes to free for a measurement, which the code computes from percentages; indices pass through a 64-bit float in the code, which is exact below 2^53.
- Other phases of the host cleanup (containers, volumes, dangling images): requests to the container backend.
- ImageSets.WerfConfig.GroupImagesByIndependentSets: images are values found by name, so two images with one name and different content count as the first; the code refuses such configs beforehand.
- Template rendering, YAML decoding, directive checks, platform checks and image name patterns: library semantics or single conditions.
- The concrete rune table and the hash function: only the facts listed above are needed.
- Reading and writing the lock file, and the texts of errors.
- Goroutines, locks and background updates: the modelled code is sequential.
