# COA platform: a verified model of its routing, reload, gate and key logic

The repository is a semantic-layer platform: a virtual knowledge graph (VKG) answers SPARQL over the
tables of several datasources, and a set of Lambdas, scripts and stacks operate it. This project models
the parts where a silent mistake would send a query to the wrong datasource, leave a service on a stale
image, let a deploy replace a resource, or lose a grant, and proves what those parts promise.

| modules | models |
|---|---|
| `Text`, `Ordering` | strings, joining, trimming, and one generic cutting scanner with its characterisation; Python's string order |
| `SqlNames`, `TableRouting`, `RouteResolution` | from R2RML table names to the routing dictionary to the datasource of a query's tables |
| `Projection` | the header of a reformulated query: which SQL column carries which SPARQL variable |
| `ReloadCalls`, `ReloadProtocol`, `ReloadInterleaving` | the reload Lambda as a machine whose steps are single API calls, alone and interleaved |
| `ReloadLambda`, `ReloadSweep` | the Lambda's own functions, each proved to be a run of that machine; the sweep and its convergence |
| `SsmNames`, `SsmGate` | the deploy gate: who owns an SSM parameter named with tokens, and when an assembly passes |
| `SecretTags`, `SecretMigration` | the namespace tag of a secret and the script that fills it in, over whole histories of runs |
| `PrincipalKeys` | percent-encoded principal keys and the role keys built from them |
| `UnicodeRanges` | run-length tables of code points and their two renderings |
| `OpenApi` | merging, integrating and securing an OpenAPI spec |

The imperative sources are methods with loops, or with classes whose fields they update, each tied by its
`ensures` to a specification about which the main results are then proved; the recursive ones are functions.
In the reload modules every API call may be refused, or be carried out with its reply lost, in any pattern;
`Account.faults` and `SecretStore.failures` count the calls that went wrong, so that statements about a faultless
run have a premise a caller could check.

## What the proofs found

Eight promises of the repository do not hold of its code on all inputs. Each is kept as the code has it, shown to
fail on a concrete input or family, and given the exact condition under which it holds.

* **Routing order** (packages/vkg/translate-server.py:160-164, 182-206). The loader means never to depend on the
  order in which the graph yields its tables. With a dot inside a quoted identifier it does: the bare name of
  `"x"."a.b"` is the qualified name of `"a"."b"` (`TableRouting.QuotedDotGuesses`). `TableRouting.OrderFreeIff` is
  the exact condition, and `TableRouting.OrderFreeWhenClean` the case the design has in mind.
* **Never a guess** (packages/vkg/translate-server.py:160-164, 602-611). The same files make the loader and the
  resolver guess, and so do two mappings of one name with other annotations, since ambiguity is counted by qualified
  name (`TableRouting.SameNameGuesses`). `TableRouting.NeverGuessedIff`, `TableRouting.NeverChosenIff` and, end to
  end, `RouteResolution.NeverMisroutedIff` and `RouteResolution.NeverRoutedByChoiceIff` say exactly for which keys it
  happens in some order; `TableRouting.OneAnswerIff` and `RouteResolution.RoutedHasOneAnswerIff` in which results it did.
* **Every sibling is surfaced** (packages/vkg/translate-server.py:602-611, 638-643). A table registered without a
  schema is missing: its only key holds the marker (`RouteResolution.UnqualifiedSiblingMissing`). And as the candidates
  travel in a comma-joined text and are trimmed when read, so is a table whose qualified name holds a comma, or starts
  or ends with a blank. `RouteResolution.SiblingSurfacesIff` is exact for any mappings. No wrong route comes of
  commas and blanks: `RouteResolution.RoutedHasOneAnswer` does not restrict the names.
* **`ReloadFailed` before every raise** (infra/lambda/vkg-reload/index.py:108-111). An exception raised while a
  missing service is provisioned leaves no metric, because the provisioning call sits in an `except` clause of its
  own (`ReloadInterleaving.SilentFailure`). `ReloadInterleaving.RaisesAreReportedIff`: the promise holds exactly
  when there is no image to go for, or the service is active, or provisioning is not configured. The narrower
  sentence on `_reload_one` (lines 227-229, "an existing service") is right.
* **`own` parameters never move** (infra/scripts/ssm_refs_check.py:110-116). A `Fn::Sub` name such as `ar${X}` is
  reported `own`, although `X` can turn it into the ARN of a public parameter (`SsmNames.OwnTurnsPublic`); so is an
  own ARN with a token for its partition (`SsmNames.OwnArnTurnsPublic`), since a token may hold colons.
  `SsmNames.OwnCanTurnPublicIff`: this can happen exactly when the literal start may begin such an ARN. Tokens stand
  for any text here; for the gate's own assumption, that an ARN keeps its fields, `SsmNames.OwnershipIsExact` is exact.
* **The tag the migration writes is readable** (scripts/tag_credential_secrets.py:229-246). Namespace ids from the
  sources table are not validated, so one text that is no id makes the written tag malformed
  (`SecretMigration.UnreadableTagWritten`). `SecretMigration.WrittenTagParsesIff` is exact for one run and
  `SecretMigration.TagsGrowIff` for any history of them.
* **The migration is idempotent** (scripts/tag_credential_secrets.py:20-24). For the same reason a second run may
  not report `ok`, nor does it for a secret of another account (`SecretMigration.SecondRunReportsOkIff`, exact), and
  a text of two ids taken for one is written again and again (`SecretMigration.RepeatedRun`; `SecretMigration.SecondRunWritesIff`, exact).
* **One encoding of principals** (libs/ts-shared/src/authnz.ts:17-22). The encoders agree byte for byte
  (`PrincipalKeys.ThreePassesAreOne`), but the trims before them do not remove the same characters: an address followed by
  U+0085 gets two keys (`PrincipalKeys.NextLineSplitsKeys`). `PrincipalKeys.SameBytesIff` is exact.

Interleaved reloads (infra/lambda/vkg-reload/index.py:129-140, 211-225) keep every created service on its one entry
whatever their targets, and keep a settled service on its image when the reloads of its namespace share one
(`ReloadInterleaving.InterleavedReloadsAreSafe`). That they share it is needed: with no call failing, a reload that
read the older image can undo a newer one (`ReloadInterleaving.StaleTargetWins`).

Smaller disagreements between a comment and the code, where the model follows the code: the loader's docstring
speaks of upper-case keys only, but it also writes the keys as spelled, and those can go stale (nothing reads
them); the comments on the OpenAPI passes say "every operation", but only six HTTP methods are treated (`options` and
`trace` pass through untouched); the namespace pattern of the reload handler ends in `$`, which lets one final line
feed pass; a listed task that DescribeTasks does not return is passed over, so "every running task" (lines 220-221 of
the handler) is every reported one.

## Model

| member | source | states |
|---|---|---|
| `Text.Scanner.SplitIff` | packages/vkg/translate-server.py:118-139 | a split at unprotected separators is the only list of uncut pieces that joins back to the text; used for both scanners |
| `Text.Scanner.UncutIff` | packages/vkg/translate-server.py:432-440 | uncut, said without scanning: every separator in the piece stands at a nonzero depth |
| `Text.UpperSpells` | packages/vkg/translate-server.py:187 | upper case spells the text letter by letter with no letter from a to z left, and identifies exactly the texts that differ in case only |
| `Ordering.LeqIff` | packages/vkg/translate-server.py:201 | the order of the sorted owners: code points decide at the first difference, a text comes before what it begins |
| `SqlNames.SplitSqlQualified` | packages/vkg/translate-server.py:110-139 | the loop with its escape branch: the parts join back to the name, have dots only after an odd number of quotes, and only the last may leave a quote open |
| `SqlNames.SplitIsUnique` | packages/vkg/translate-server.py:110-117 | no other list of parts satisfies that, so the branchy loop is exactly the even-quotes rule |
| `SqlNames.QuoteJoinSplit` | packages/vkg/translate-server.py:113-116 | arbitrary segments, with dots and quotes, quoted and dot-joined, split back into exactly the quoted segments |
| `SqlNames.UnquoteQuoted` | packages/vkg/translate-server.py:184 | stripping quotes recovers a segment from its quoted form exactly when there is no quote in it |
| `SqlNames.UnquotedOf` | packages/vkg/translate-server.py:184 | stripping takes off the quotes at both ends, however many, and nothing else |
| `SqlNames.BareJoinSplit` | packages/vkg/translate-server.py:113-115 | segments written without quotes are split as written and left alone by stripping |
| `TableRouting.ReadMapping` | packages/vkg/translate-server.py:165-206 | one turn of the loop keeps the owner index and the dictionary in step with the mappings read |
| `TableRouting.LoadTableRouting` | packages/vkg/translate-server.py:159-208 | the loop ends with, under every key, the value the last mapping assigning it called for |
| `TableRouting.PublishedClosedForm` | packages/vkg/translate-server.py:187-206 | closed form on upper-case keys: the last toucher's entry, or the marker of all owners of a shared bare name |
| `TableRouting.OrderFreeIff` | packages/vkg/translate-server.py:160-165 | for any mappings at all: every order gives the same result exactly when no shared bare name is the qualified name of a table with another bare name, and elsewhere the tables touching a key have the same annotations |
| `TableRouting.OrderFreeWhenClean` | packages/vkg/translate-server.py:178-206 | dot-free bare names and refs distinct up to case make the order irrelevant |
| `TableRouting.PublishedNeverGuesses` | packages/vkg/translate-server.py:160-164 | on a key that is touched in one way only (as a bare name, or not as one): a route exactly when one qualified name answers to it, the sorted marker of all of them when several do, absent when none does |
| `TableRouting.OneAnswerIff` | packages/vkg/translate-server.py:160-164 | with refs distinct up to case, a published route is the entry of the one table answering exactly when its key is touched in one way |
| `TableRouting.NeverGuessedIff` | packages/vkg/translate-server.py:160-164 | for any mappings, names repeated or not: in every order a published route is the entry of every table touching the key and these have one name, exactly when one name answers to the key with one pair of annotations, or several share it as a bare name and none has it as its qualified name alone |
| `TableRouting.NeverChosenIff` | packages/vkg/translate-server.py:160-164 | for any mappings: in every order a published route is the entry of every table touching the key, exactly when their annotations agree or they all share the key as a bare name |
| `TableRouting.SameNameGuesses` | packages/vkg/translate-server.py:189-206 | the second failing family: of two mappings of one name with other annotations the last takes the name, qualified and bare, and nothing is marked |
| `TableRouting.CleanIsOneWay` | packages/vkg/translate-server.py:182-206 | every undotted key is touched in one way only, and every key is when no bare name has a dot |
| `TableRouting.SharedIsMarked` | packages/vkg/translate-server.py:194-203 | a bare key with two or more owners holds the marker that lists exactly those owners, sorted |
| `TableRouting.NewMapping` | packages/vkg/translate-server.py:187-206 | one more table with a new ref, in any order, keeps a published key touched in one way, or turns its own bare name into the marker; a route stays exactly when the key is not its bare name |
| `TableRouting.NewMappingIff` | packages/vkg/translate-server.py:187-206 | for any mappings: no order moves a route when one more is read exactly when every table then touching the key shares it as a bare name or has the same annotations |
| `TableRouting.QuotedNameParts` | packages/vkg/translate-server.py:178-186 | a table name with every segment quoted is read back segment by segment |
| `TableRouting.BareNameParts` | packages/vkg/translate-server.py:178-186 | a table name without quotes is read back segment by segment |
| `TableRouting.QuotedDotGuesses` | packages/vkg/translate-server.py:182-206 | the failing family: a dot in a quoted bare name makes the result depend on which of two tables comes last |
| `RouteResolution.BringSiblings` | packages/vkg/translate-server.py:639-643 | the inner loop adds the listed candidates that have a datasource and are not yet there |
| `RouteResolution.ResolveRouting` | packages/vkg/translate-server.py:595-644 | the loop over references computes the answer that the lemmas below characterise |
| `RouteResolution.ResolveClosedForm` | packages/vkg/translate-server.py:612-644 | the whole answer key by key, for any mappings and references: what a reference found, else a name listed by a marker with a datasource, else nothing |
| `RouteResolution.MarkerSplits` | packages/vkg/translate-server.py:201-203 | the comma-joined marker of comma-free, trimmed names splits back into exactly them |
| `RouteResolution.MarkerListsIff` | packages/vkg/translate-server.py:639-640 | of any owners, a marker is read back as listing exactly those without a comma or outer blanks in their name |
| `RouteResolution.RoutedHasOneAnswer` | packages/vkg/translate-server.py:602-611 | end to end: whatever is routed, under any names with commas or blanks, through a key touched in one way, has exactly one qualified name answering to the key, with the entry of a table of that name |
| `RouteResolution.RoutedHasOneAnswerIff` | packages/vkg/translate-server.py:602-611 | with refs distinct up to case the route is its one answer's exactly when the key is touched in one way |
| `RouteResolution.NeverMisroutedIff` | packages/vkg/translate-server.py:602-611 | for any mappings, end to end: no order of them and no list of references routes a reference by a guess exactly when one name answers to the key it is read under, with one pair of annotations, or all that answer share it as a bare name |
| `RouteResolution.NeverRoutedByChoiceIff` | packages/vkg/translate-server.py:602-611 | and none by a choice among annotations exactly when these agree, or all that answer share the key |
| `RouteResolution.KeyForIsKeyIn` | packages/vkg/translate-server.py:615-625 | which key a reference is read under depends on the mappings alone, not on their order |
| `RouteResolution.LookupIgnoresCase` | packages/vkg/translate-server.py:615-625 | references that are the same letter by letter but for case find the same entry, in any dictionary |
| `RouteResolution.RegisteredIsRead` | packages/vkg/translate-server.py:187-188 | a reference equal but for case to a registered table's dotted name is read under that table's key, which is there |
| `RouteResolution.OneTableResolves` | packages/vkg/translate-server.py:595-625 | of one table a reference equal to its name but for case comes back with its datasource and schema, and nothing else does |
| `RouteResolution.NoDatasourceNeverSurfaces` | packages/vkg/translate-server.py:641-643 | a key that no table with a datasource touches is never brought in as a sibling |
| `RouteResolution.SharedBareIsRefused` | packages/vkg/translate-server.py:631-635 | for any mappings, a bare reference several tables answer to always comes back as the marker |
| `RouteResolution.QualifiedBringsOwners` | packages/vkg/translate-server.py:626-643 | a qualified reference on a shared name brings in every owner that has a datasource, a name the marker can carry, and a key that holds its entry |
| `RouteResolution.SiblingSurfacesIff` | packages/vkg/translate-server.py:602-611 | for any mappings, for an owner with a datasource that is not itself asked for: every order of the mappings surfaces it with its own entry exactly when its qualified name has no comma and no outer blanks, is not shared as a bare name, and is a key on which the annotations agree |
| `RouteResolution.UnshadowedSurfacesIff` | packages/vkg/translate-server.py:602-611 | in one given order, with distinct refs and no bare name equal to the owner's qualified one, only the commas and blanks matter |
| `RouteResolution.UnqualifiedNeverSurfaces` | packages/vkg/translate-server.py:636-643 | an owner without a schema is missing in every order unless asked for: its only key holds the marker, which has no datasource |
| `RouteResolution.UnqualifiedSiblingMissing` | packages/vkg/translate-server.py:636-643 | with tables `"a"` and `"s"."a"` the reference `s.a` does not bring in `a` |
| `RouteResolution.NewMappingNeverReroutes` | packages/vkg/translate-server.py:615-625 | registering a table never moves a bare reference to another datasource, whatever the names; a registered qualified one, touched in one way, keeps its route exactly when it is not the new table's bare name |
| `Projection.SplitTopLevel` | packages/vkg/translate-server.py:420-441 | the depth-counting loop yields the trimmed nonempty pieces between depth-0 commas |
| `Projection.SplitUndoesPrint` | packages/vkg/translate-server.py:420-441 | any list of balanced, trimmed, nonempty items, printed with ", ", splits back into itself |
| `Projection.PlainUndoesPrint` | packages/vkg/translate-server.py:499-507 | the same for the plain comma lists of variables and aliases |
| `Projection.MentionsIsWord` | packages/vkg/translate-server.py:517-528 | the word-boundary search finds an alias exactly when it is one of the maximal word runs of the expression, for any class of word characters |
| `Projection.ParseProjectionHeader` | packages/vkg/translate-server.py:495-552 | the parser returns all variables with their columns, or nothing |
| `Projection.MappedCount` | packages/vkg/translate-server.py:535-542 | the length comparison holds exactly when the variables are distinct and all mapped |
| `Projection.HeaderIsFaithful` | packages/vkg/translate-server.py:474-476 | a result has distinct variables, each mapped to the one alias that one of its definitions mentions |
| `Projection.HeaderNamesWords` | packages/vkg/translate-server.py:517-533 | for word aliases, said with the words of the text: each variable has the one alias among the words of the term after the slash in one of its definitions |
| `Projection.NativeOrderIrrelevant` | packages/vkg/translate-server.py:461-462 | permuting the NATIVE list leaves the whole parsed header as it is |
| `Projection.PrintedHeaderReadsBack` | packages/vkg/translate-server.py:444-459 | any header whose terms have one word alias each among their words, and any other words, yields exactly that mapping, not a positional one |
| `Projection.ReferencedHeaderReadsBack` | packages/vkg/translate-server.py:444-459 | the same for aliases of any characters, by what the boundary search finds |
| `ReloadProtocol.StepEvolves` | infra/lambda/vkg-reload/index.py:211-341 | one API call only adds task definitions and entries, touches only its own service, moves it only to the target, and a run that has made no mutating call has changed nothing |
| `ReloadProtocol.StepRooted` | infra/lambda/vkg-reload/index.py:512-588 | what a run relies on whatever the others do (its task definition names its target, its registry is the namespace's entry, the entry is not on the pages read) holds after its own step |
| `ReloadProtocol.RootedIsStable` | infra/lambda/vkg-reload/index.py:621-638 | and after any step of others |
| `ReloadProtocol.StepPlaced` | infra/lambda/vkg-reload/index.py:243-307 | so does, with one target for the namespace, what it has read of the service |
| `ReloadProtocol.PlacedIsStable` | infra/lambda/vkg-reload/index.py:243-307 | which steps of other runs with the same target do not disturb |
| `ReloadProtocol.PlacedApart` | infra/lambda/vkg-reload/index.py:231 | nor do steps of runs for other namespaces, with whatever target |
| `ReloadProtocol.StepConsistent` | infra/lambda/vkg-reload/index.py:309-341 | metrics emitted so far, mutating calls made and the outcome keep agreeing |
| `ReloadProtocol.StepKeepsBound` | infra/lambda/vkg-reload/index.py:550-570 | a service that is created is bound to the Cloud Map entry of its namespace |
| `ReloadProtocol.StepKeepsUnique` | infra/lambda/vkg-reload/index.py:621-632 | entry names stay unique |
| `ReloadInterleaving.ReplayKeeps` | infra/lambda/vkg-reload/index.py:211-341 | over a whole run under any faults: place and reports stay consistent, other services untouched, no mutating call means no change |
| `ReloadInterleaving.ReplayFate` | infra/lambda/vkg-reload/index.py:211-225 | a faultless run ends as a one-line rule says: left alone exactly when image and known running digest are the target's, else restarted or provisioned |
| `ReloadInterleaving.SilentFailure` | infra/lambda/vkg-reload/index.py:325-327 | a refused call while provisioning raises with no metric emitted |
| `ReloadInterleaving.RaisesAreReportedIff` | infra/lambda/vkg-reload/index.py:108-111 | every raise is preceded by `ReloadFailed` exactly when there is no image, or the service is active, or provisioning is not configured |
| `ReloadInterleaving.InterleavedReloadsAreSafe` | infra/lambda/vkg-reload/index.py:211-341 | any number of reloads with any targets, any schedule, any faults: created services bound to the one entry, which is never missed; outcome and metrics agree; and where the reloads of a namespace share a target, its service once settled is on it in every later state |
| `ReloadInterleaving.CreatedServicesApart` | infra/lambda/vkg-reload/index.py:621-638 | after any schedule, names written out: a service created for a namespace is registered under the entry `vkg-` and the namespace, and those of two namespaces under two entries |
| `ReloadInterleaving.OtherNamespacesUntouched` | infra/lambda/vkg-reload/index.py:231 | calls made for other namespaces, with whatever targets, leave a namespace's service exactly as it was |
| `ReloadInterleaving.StaleTargetWins` | infra/lambda/vkg-reload/index.py:235-307 | two publishes around a change of the image parameter, no call failing: both report success and the service ends on the older image |
| `ReloadLambda.Account.RunningImageDigests` | infra/lambda/vkg-reload/index.py:362-384 | the chunked loop gives the digests of all reported tasks, or nothing when one has none yet or any call fails |
| `ReloadLambda.Account.ResolveImageDigest` | infra/lambda/vkg-reload/index.py:387-414 | the digest the image resolves to, or "" on any failure; at most one lookup |
| `ReloadLambda.PinnedIs` | infra/lambda/vkg-reload/index.py:395-397 | an image that ends in `@sha256:` and 64 lower-case hexadecimal digits has that digest |
| `ReloadLambda.PinnedEnds` | infra/lambda/vkg-reload/index.py:395-397 | and no other image is pinned |
| `ReloadLambda.GetCurrentServiceImage` | infra/lambda/vkg-reload/index.py:344-359 | reading errors are swallowed; a nonempty answer is the image the service names |
| `ReloadLambda.EnsureCloudMap` | infra/lambda/vkg-reload/index.py:621-638 | creating or looking up is a run of the machine that ends with the entry named `vkg-` and the namespace, or an exception |
| `ReloadLambda.FindEntry` | infra/lambda/vkg-reload/index.py:633-638 | the lookup, page by page, finds that entry or nothing |
| `ReloadLambda.CreateOrTakeOver` | infra/lambda/vkg-reload/index.py:550-588 | creating the service, active and on the given task definition and registry, or taking over the one already there is a run of the machine, with its metric |
| `ReloadLambda.ProvisionAndDeploy` | infra/lambda/vkg-reload/index.py:512-588 | the whole provisioning is a run of the machine, with its metric; a provisioned service is registered under the entry `vkg-` and its namespace |
| `ReloadLambda.CachedDigest` | infra/lambda/vkg-reload/index.py:246-251 | the cache never holds a wrong digest, answers as the resolver would when nothing fails, and costs one lookup per image, failures included |
| `ReloadLambda.RunsTarget` | infra/lambda/vkg-reload/index.py:245-279 | leaving the service alone implies the running digests are exactly the target's |
| `ReloadLambda.UpdateOrProvision` | infra/lambda/vkg-reload/index.py:283-341 | updating, with provisioning on a missing service, is a run of the machine |
| `ReloadLambda.Restart` | infra/lambda/vkg-reload/index.py:280-307 | registering a revision when the image differs, then updating, is a run of the machine |
| `ReloadLambda.Finished` | infra/lambda/vkg-reload/index.py:211-230 | what a finished run means for the account: outcome, metrics, target, untouched services, and its fate when nothing failed |
| `ReloadLambda.LoggedResolve` | infra/lambda/vkg-reload/index.py:417-430 | the image from SSM, or "" |
| `ReloadLambda.ReloadOne` | infra/lambda/vkg-reload/index.py:211-341 | whatever fails: at most one metric, agreeing with the outcome; a settled outcome means the target image; `unchanged` means nothing written and the digests equal; only the own service touched; faultless runs follow the rule |
| `ReloadSweep.ListVkgNamespaces` | infra/lambda/vkg-reload/index.py:198-208 | all pages, in order, names with the marker cut off |
| `ReloadSweep.NamespacesRebuildServices` | infra/lambda/vkg-reload/index.py:200-207 | a namespace is listed exactly when the service its name rebuilds is listed |
| `ReloadSweep.ListedIff` | infra/lambda/vkg-reload/index.py:200-207 | names written out: a namespace is listed exactly when some ARN is, or ends after a slash in, the prefix, `-vkg-` and the namespace |
| `ReloadSweep.LastSegmentIff` | infra/lambda/vkg-reload/index.py:205 | the last segment is what follows the last slash |
| `ReloadSweep.SweepOne` | infra/lambda/vkg-reload/index.py:160-174 | one round of the loop keeps every promise made so far, whatever the reload does; a service is left alone only with its running digests equal to the target's |
| `ReloadSweep.SweepAll` | infra/lambda/vkg-reload/index.py:157-174 | one result per namespace in order, restarts equal `ReloadTriggered` metrics, `unchanged` only on equal digests, other services untouched, at most one digest lookup, under any faults |
| `ReloadSweep.Sweep` | infra/lambda/vkg-reload/index.py:129-195 | the sweep completes once the listing succeeds, with all of that for the listed namespaces; its counts are those of the results and of the metrics; when it fails, one `ReloadFailed` and no write |
| `ReloadSweep.FirstSweepSettles` | infra/lambda/vkg-reload/index.py:129-139 | a faultless sweep leaves on the target image each service that is active or that it may provision |
| `ReloadSweep.SettledIsLeftAlone` | infra/lambda/vkg-reload/index.py:132-136 | a faultless sweep over settled services reports every one `unchanged` |
| `ReloadSweep.SweepSettleSweep` | infra/lambda/vkg-reload/index.py:87-93 | convergence, with services the first sweep provisions: after a sweep and settled rollouts, a second sweep writes nothing and emits nothing |
| `ReloadSweep.Handler` | infra/lambda/vkg-reload/index.py:79-126 | a sweep with all its promises, or one reload that never ends `unchanged`, with the metric its outcome calls for; an invalid namespace causes no call at all |
| `ReloadSweep.ValidNamespaceIff` | infra/lambda/vkg-reload/index.py:26 | the namespace pattern character by character, and the one line feed its `$` lets pass |
| `SsmNames.OwnershipIsExact` | infra/scripts/ssm_refs_check.py:110-131 | `public` exactly when every substitution of the tokens is public, `own` exactly when the account is own and none is, `unknown` exactly otherwise |
| `SsmNames.OwnIsNeverPublic` | infra/scripts/ssm_refs_check.py:127-131 | no substitution makes the name part of an `own` parameter public, closed tokens or not |
| `SsmNames.PublicIff` | infra/scripts/ssm_refs_check.py:113-126 | public names are those that begin with `/aws/service/` or `aws/service/` |
| `SsmNames.AccountDecides` | infra/scripts/ssm_refs_check.py:129-131 | of an ARN with an own name the account decides: none or `${AWS::AccountId}` is own, any other is unknown |
| `SsmNames.UnresolvedIsUnknown` | infra/scripts/ssm_refs_check.py:117-118 | a parameter without a usable default is unknown |
| `SsmNames.OwnCanTurnPublicIff` | infra/scripts/ssm_refs_check.py:113-131 | any `own` parameter, in ARN form or not, can become a public one exactly when its literal start may begin a public parameter's ARN, or, without a closed token, when it is one |
| `SsmNames.OwnTurnsPublic` | infra/scripts/ssm_refs_check.py:119-131 | `ar${X}` is such a name |
| `SsmNames.ArnMatched` | infra/scripts/ssm_refs_check.py:43-45 | the ARN pattern reads partition, region, account and name back from any ARN of these fields |
| `SsmNames.MatchedIsArn` | infra/scripts/ssm_refs_check.py:43-45 | and takes nothing else for one |
| `SsmNames.OwnArnTurnsPublic` | infra/scripts/ssm_refs_check.py:119-131 | and so is every own name in an ARN with a token for its partition, such as `arn:${X}:ssm:r::parameter/own` |
| `SsmNames.CompletionCompletes` | infra/scripts/ssm_refs_check.py:43-45 | the text built to complete a literal start does make a public parameter's ARN |
| `SsmNames.CompletedMayStart` | infra/scripts/ssm_refs_check.py:43-45 | and only literal starts that pass the check can be completed |
| `SsmGate.WrittenReferenceIsFound` | infra/scripts/ssm_refs_check.py:37-38 | a reference written into a text is found with its name, and the search goes on after it, unless another reference begins before it |
| `SsmGate.NoOpeningBefore` | infra/scripts/ssm_refs_check.py:37-38 | none begins where there is no opening of one, whatever braces the text has of its own |
| `SsmGate.SecureReferenceIsFound` | infra/scripts/ssm_refs_check.py:37-38 | the same for the secure form |
| `SsmGate.FoundReferencesStand` | infra/scripts/ssm_refs_check.py:37-38 | every name found stands in the text as a reference of one of the two forms |
| `SsmGate.PlainIsWritable` | infra/scripts/ssm_refs_check.py:37-38 | every name without braces and dollar signs can be referenced |
| `SsmGate.VariablesIff` | infra/scripts/ssm_refs_check.py:39 | a variable is read off a Fn::Sub text exactly when `${name}` stands in it, the name of letters and digits |
| `SsmGate.SubstitutedIff` | infra/scripts/ssm_refs_check.py:89-96 | a parameter is read through Fn::Sub exactly when its variable is in the text and not in the local map |
| `SsmGate.JoinedIff` | infra/scripts/ssm_refs_check.py:101-107 | Fn::Join is searched as the text its pieces make, `${?}` standing in for each that is no text |
| `SsmGate.BuiltReferenceIsUnknown` | infra/scripts/ssm_refs_check.py:19-21 | a reference built around a token is read with an unknown owner |
| `SsmGate.SsmParametersIff` | infra/scripts/ssm_refs_check.py:134-145 | the SSM parameters are exactly those of type `AWS::SSM::Parameter::Value<`, named by their nonempty text default or marked unresolved |
| `SsmGate.NestedSourcesCount` | infra/scripts/ssm_refs_check.py:76-98 | no nesting hides a reference: whatever is read inside a value is read by the value |
| `SsmGate.ReadsAllOrRaises` | infra/scripts/ssm_refs_check.py:76-98 | the reader, exception by exception, raises on exactly the values said to, and otherwise finds every name |
| `SsmGate.CountRefused` | infra/scripts/ssm_refs_check.py:148-149 | a property has a refused reference exactly when its count is positive; a value that cannot be read raises |
| `SsmGate.CheckTemplate` | infra/scripts/ssm_refs_check.py:139-149 | the same for a template |
| `SsmGate.Gate` | infra/scripts/ssm_refs_check.py:164-184 | the exit status: 2 without templates, 1 when one raises, 5 when one is refused, else 0, which is exactly when the assembly passes |
| `SsmGate.BlocksIff` | infra/scripts/ssm_refs_check.py:157-175 | a reference stops the deploy exactly when its owner is unknown, or public on a replacing property, or the property is in neither list |
| `SsmGate.ReplacingIff` | infra/scripts/ssm_refs_check.py:50-58 | the replacing properties, written out |
| `SsmGate.InPlaceIff` | infra/scripts/ssm_refs_check.py:62-73 | the in-place properties, written out |
| `SsmGate.PublicRefIsRefused` | infra/scripts/ssm_refs_check.py:10-16 | said on the template: a Ref to a parameter with a public default, anywhere in a replacing property, makes an assembly that can be read exit with 5 |
| `SsmGate.PassingIsSafe` | infra/scripts/ssm_refs_check.py:10-21 | exit 0: any reference anywhere in any property whose name can resolve to a public parameter sits on a property listed in place and not listed replacing |
| `SsmGate.PassingIsSafeUnlessArnStarts` | infra/scripts/ssm_refs_check.py:113-131 | the same for the parameter as a whole, whatever form it is written in or resolves to, unless its literal start may begin a public parameter's ARN |
| `SecretTags.ParseIff` | libs/common/src/coa_common/constants.py:886-911 | a value parses to a list exactly when it is one or more ids joined by single spaces |
| `SecretTags.IdIff` | libs/common/src/coa_common/constants.py:405-406 | an id is groups of 8, 4, 4, 4 and 12 lower-case hexadecimal digits, the third beginning with 4, the fourth with 8, 9, a or b |
| `SecretTags.ParsesBySpaces` | libs/common/src/coa_common/constants.py:892-898 | equivalently: every piece of the literal split at spaces is an id |
| `SecretTags.ConditionsReadEntries` | libs/common/src/coa_common/constants.py:914-928 | one of the four IAM patterns of a namespace matches a value exactly when the namespace is a piece between its spaces; of a value that parses, one of its entries |
| `SecretTags.TagLength` | libs/common/src/coa_common/constants.py:860-862 | n ids take 37n - 1 characters |
| `SecretTags.UnionParsesIff` | scripts/tag_credential_secrets.py:237-238 | a space-joined list of any texts parses exactly when every text does |
| `SecretTags.WrittenValue` | scripts/tag_credential_secrets.py:229-246 | the value to write fits 256 characters and parses exactly when every missing text does; then it keeps every entry in place and lists at most 6 |
| `SecretTags.AccountIs` | scripts/tag_credential_secrets.py:141-143 | the account of an ARN is its fifth field, if a sixth follows |
| `SecretTags.RoomForText` | scripts/tag_credential_secrets.py:238-244 | a first text is written up to 256 characters and over capacity beyond |
| `SecretTags.RoomForIds` | scripts/tag_credential_secrets.py:238-244 | an untagged secret can be tagged with one to six ids |
| `SecretTags.SettledIff` | scripts/tag_credential_secrets.py:229-246 | judged again after the write a tag is in order exactly when all its namespaces are ids |
| `SecretTags.RepeatsIff` | scripts/tag_credential_secrets.py:229-246 | and due again exactly when the value parses, some text is no id and there is room for it once more |
| `SecretMigration.Collect` | scripts/tag_credential_secrets.py:186-192 | one object per ARN with exactly the namespaces and the sources of its rows |
| `SecretMigration.ClassifyOne` | scripts/tag_credential_secrets.py:197-249 | the status and value follow from what was described; exactly from the stored tag when no call fails |
| `SecretMigration.Classify` | scripts/tag_credential_secrets.py:195-249 | the same for every secret; no tag is written |
| `SecretMigration.ApplyOne` | scripts/tag_credential_secrets.py:255-268 | a secret due for tagging gets its value, or becomes unreadable; no other tag changes |
| `SecretMigration.Apply` | scripts/tag_credential_secrets.py:252-269 | every due secret is handled, nothing else touched; the two counts are those of the secrets tagged and failed |
| `SecretMigration.ExitStatus` | scripts/tag_credential_secrets.py:345 | 1 exactly when a secret with a blocking status is left |
| `SecretMigration.NeedsHumanIff` | scripts/tag_credential_secrets.py:120 | what makes a faultless run exit with 1, written out: no account in the ARN, or an own secret that is missing, malformed or over 256 characters |
| `SecretMigration.Migrate` | scripts/tag_credential_secrets.py:307-345 | one run makes one step; without --apply nothing is written; exit 0 means every tag lists what was wanted; with no failed call the tags and the exit status are exact |
| `SecretMigration.StepGrowsIff` | scripts/tag_credential_secrets.py:229-248 | a run that changes a tag keeps its entries, their order and the limit exactly when every text it adds parses |
| `SecretMigration.StepGrows` | scripts/tag_credential_secrets.py:235-248 | when the sources name ids it always does |
| `SecretMigration.TagsGrowIff` | scripts/tag_credential_secrets.py:195-269 | over any history of runs with new sources and failed calls in between, a readable tag has only grown exactly when every run that changed it added only texts that parse; and one that did not leaves it unreadable for good |
| `SecretMigration.TagsOnlyGrow` | scripts/tag_credential_secrets.py:195-269 | when the sources name ids a readable tag only grows, within 256 characters and 6 ids |
| `SecretMigration.OffLimitsNeverWritten` | scripts/tag_credential_secrets.py:198-227 | over any history a malformed or cross-account tag is never written |
| `SecretMigration.SecondRunWritesNothing` | scripts/tag_credential_secrets.py:20-24 | after a run that exits with 0, another over the same sources writes nothing unless some secret repeats |
| `SecretMigration.SecondRunWritesIff` | scripts/tag_credential_secrets.py:20-24 | exact, with no call failing: the second run writes nothing exactly when no secret repeats |
| `SecretMigration.IdsNeverRepeat` | scripts/tag_credential_secrets.py:229-246 | none does when the sources name ids |
| `SecretMigration.RepeatedRun` | scripts/tag_credential_secrets.py:229-246 | the text of two ids, taken for one, does: each run adds it again |
| `SecretMigration.SecondRunReportsOkIff` | scripts/tag_credential_secrets.py:20-24 | after a run that exits with 0 a second one reports every secret `ok` exactly when all secrets are in the account and all texts of those written are ids; every in-account secret exactly under the latter |
| `SecretMigration.WrittenTagParsesIff` | scripts/tag_credential_secrets.py:229-246 | for any namespace texts: the written tag parses exactly when each missing text does |
| `SecretMigration.UnreadableTagWritten` | scripts/tag_credential_secrets.py:237-246 | any one text that does not parse and fits makes a run write a tag that cannot be read |
| `PrincipalKeys.ThreePassesAreOne` | libs/ts-shared/src/authnz.ts:24-32 | the three TypeScript passes are the one-pass Python encoding, for every text |
| `PrincipalKeys.SameBytesIff` | libs/ts-shared/src/authnz.ts:14-25 | both languages write the same key exactly when the principal is no email address, or, without what both trim, has none of U+001C to U+001F, U+0085 and U+FEFF at an end |
| `PrincipalKeys.NextLineSplitsKeys` | libs/ts-shared/src/authnz.ts:25 | an address followed by U+0085 gets two different keys |
| `PrincipalKeys.QuoteReads` | libs/common/src/coa_common/principal_keys.py:47-49 | percent-decoding an encoded text gives its UTF-8 bytes |
| `PrincipalKeys.Utf8Reads` | libs/common/src/coa_common/principal_keys.py:47-49 | the bytes decode to the text |
| `PrincipalKeys.KeyDecodes` | libs/ts-shared/src/authnz.ts:17-22 | a key decodes to the normalised principal |
| `PrincipalKeys.SameKeyIff` | libs/common/src/coa_common/principal_keys.py:6-15 | two principals share a key exactly when they are equal once normalised |
| `PrincipalKeys.NoHash` | libs/common/src/coa_common/principal_keys.py:26-28 | a key holds no `#` and no `:` |
| `PrincipalKeys.KeptIff` | libs/common/src/coa_common/principal_keys.py:49 | the characters a key keeps, by code point; every other one is encoded |
| `PrincipalKeys.RoleKeyReads` | libs/ts-shared/src/authnz.ts:62-69 | a role key splits back into type, id and role, whatever the role text |
| `PrincipalKeys.RoleKeyTexts` | libs/ts-shared/src/authnz.ts:5-12 | the role keys of the three types, written out |
| `PrincipalKeys.RoleKeysAreUnique` | libs/ts-shared/src/authnz.ts:68-69 | two role keys are equal exactly when type, normalised principal and role are |
| `UnicodeRanges.RangesFor` | scripts/generate_unicode_category_tables.py:27-41 | for any predicate and maximum: ranges sorted, disjoint, non-adjacent and nonempty, covering exactly the points where it holds |
| `UnicodeRanges.CanonicalIsUnique` | scripts/generate_unicode_category_tables.py:27-41 | and there is only one such list |
| `UnicodeRanges.HexReads` | scripts/generate_unicode_category_tables.py:44-55 | either hex spelling reads back to its number |
| `UnicodeRanges.DigitTexts` | scripts/generate_unicode_category_tables.py:46-53 | upper-case digits in Python, lower-case in TypeScript |
| `UnicodeRanges.LineTexts` | scripts/generate_unicode_category_tables.py:46-53 | the lines, written out |
| `UnicodeRanges.TableTexts` | scripts/generate_unicode_category_tables.py:44-55 | the tables, written out |
| `UnicodeRanges.LineReads` | scripts/generate_unicode_category_tables.py:46-53 | a rendered line reads back to its range |
| `UnicodeRanges.RenderedReadsBack` | scripts/generate_unicode_category_tables.py:44-55 | either rendered table reads back to the list it was made from |
| `OpenApi.MergeOpenApiPaths` | infra/lib/utils/api-utils.ts:45-72 | succeeds exactly when no path has a key in both specs, and then the base is the disjoint union |
| `OpenApi.MergeConserves` | infra/lib/utils/api-utils.ts:34-39 | the union loses no entry, invents none and changes none |
| `OpenApi.IntegratePath` | infra/lib/utils/api-utils.ts:119-145 | fails exactly when a listed operation has no Lambda; else integrates each with its own or the default one |
| `OpenApi.ArnForIs` | infra/lib/utils/api-utils.ts:123-126 | each method, written out, goes to its own Lambda, or else to the default |
| `OpenApi.HardenedIff` | infra/lib/utils/api-utils.ts:207-219 | the five security headers, written out, are declared and all others kept |
| `OpenApi.InjectLambdaProxyIntegrations` | infra/lib/utils/api-utils.ts:101-149 | fails exactly when a path or listed operation has no Lambda; otherwise all paths are integrated |
| `OpenApi.SecurePath` | infra/lib/utils/api-utils.ts:190-198 | empty security on an open path, the declared list or all schemes elsewhere, for listed methods only |
| `OpenApi.FillAuthorizerParameters` | infra/lib/utils/api-utils.ts:154-203 | all schemes with an authorizer become API-key schemes with the Lambda and role; security is set when there is any scheme |
| `OpenApi.PipelineConserves` | infra/lib/utils/api-utils.ts:45-203 | after merge, integration and authorizer the path and key set is that of the two specs, each listed operation has its Lambda and security and keeps its declared responses, all else is untouched |
| `OpenApi.PublishSpec` | infra/lib/stacks/services/api-stack.ts:362-505 | the three passes in a row succeed exactly when the specs do not clash and every listed operation has a Lambda; then all of that holds of the spec, and no listed operation is without one |

## Left out

- Turtle and SQL parsing and dialect rewriting (rdflib, sqlglot): mappings and table references are inputs. A missing or unparseable mapping file, which yields an empty dictionary, is the empty input.
- HTTP servers, health polling, boto3 clients, JSON logs, report texts and the auto-scaling calls, which are swallowed when they fail.
- Regex engines. The projection parser starts from what its three patterns captured; its `distinct` flag, a single pattern on the SPARQL text, is left out. Patterns the proofs need are written as scanners.
- ReloadSweep.Handler: the namespace is text. One that is not, or a `detail` that is null, makes the original raise before any call or metric.
- Case mapping and character classes beyond ASCII: `Upper` maps a-z only, the word characters of `\b` and the trim-and-lowercase of email principals are arbitrary parameters, and `\d` in the image pattern does not occur.
- The image URI pattern for tagged ECR images: what a tagged URI resolves to is a map, and a URI without a tag is absent from it. A line feed after a pinned digest is not read as the original's `$` does.
- ECS circuit-breaker rollback to an older task definition, deletion of services or entries, eventual consistency, and pagination of ListTasks. CloudWatch never loses a metric.
- The contents of a task definition other than its image, and of a service other than its task definition, registry and activity.
- ReloadSweep.Sweep: a reload that raised is listed as raised, where the original writes the status `failed` with the error text.
- ReloadInterleaving.InterleavedReloadsAreSafe: assumes, as AWS does, that creating an entry or an active service enforces unique names.
- A `Fn::Join` whose separator is a list or an object, which CloudFormation rejects, is no joined reference here; the original joins with its printed form. Repeated keys of a JSON object, which the JSON reader collapses, do not occur.
- SsmGate.NestedSourcesCount: logical ids that themselves hold a dynamic reference are excluded; a template cannot contain them.
- SecretMigration.TagsGrowIff: assumes one writer and one ARN spelling per secret. The decoding of DynamoDB items and the choice of region are left out.
- PrincipalKeys.SameBytesIff: lower-casing is one parameter for both languages, assumed to leave the characters that only one of them trims alone; differences between their Unicode versions are left out.
- PrincipalKeys.KeyDecodes: lone surrogates, on which `encodeURIComponent` throws, are not characters of the model.
- OpenApi.PublishSpec: the mock integration that the API stack gives `GET /health` between the second and the third pass is left out.
- OpenApi.MergeOpenApiPaths: after a conflict the base is left half merged, and nothing is said about it; objects shared between the two specs are values here. A falsy path item is not modelled, a falsy operation is.
- The version check and file layout of the Unicode tables, OpenAPI placeholder substitution, login and token code, stacks and constructs, the web app and the connectors: thin wrappers or clients of what is modelled.
