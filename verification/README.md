# Buildly core: aggregation, data mesh and permissions

This project models three connected parts of the Buildly gateway in Dafny and proves what they
promise.

**Aggregation of OpenAPI documents.** `SwaggerAggregator` renames definitions by substituting in the
printed text of each specification, parses the text back, prefixes keys, merges all services and
rewrites operation ids. The model has the JSON printer and parser with Python's escapes (RFC 8259,
section 7), `str.replace`, and JSON Pointers (RFC 6901, section 4). Texts are sequences of code
points, so lone surrogates exist as they do in a Python `str`. The results: the substitution on text
is the rename of the tree, exactly for names that a JSON string may hold unescaped; references and
everything reachable from an operation are preserved; no path is lost; operation ids stay unique.

**Data mesh.** `DataMesh` nests related records into response items, following relationships forwards
or backwards over the join records, with a local cache, one cached client for each service, and an
asynchronous form in which tasks interleave. The results: the synchronous program, with its caches,
computes the relational join; every interleaving of the asynchronous one gives the same items up to
the order inside the nested lists, and ends. Around it: the table constraints are complete, a
relationship reads the same from both ends, reverse relationships never arise, the load command
reconciles.

**Permissions.** Bit strings folded over groups equal "some applicable group grants it", for the
gateway's services and for workflow levels. Consortium membership is kept by a small table next to it.

## Layout

| file | content |
|---|---|
| `Texts.dfy`, `Json.dfy` | strings; JSON trees, `dumps`, `loads`, dict operations |
| `Replace.dfy`, `Rename.dfy`, `Parsing.dfy` | `str.replace` inside printed JSON; the definition rename; what `loads` returns |
| `Aggregator.dfy`, `OperationIds.dfy`, `References.dfy` | the merge; paths and ids; pointers and closures |
| `Models.dfy`, `Keys.dfy` | rows and their columns; the texts of keys and `valid_uuid4` |
| `JoinTable.dfy`, `Relationships.dfy` | constraints and lookups; the reverse check |
| `LoadRelationships.dfy`, `Serializers.dfy` | reconciliation with a file; join records through the API |
| `Clients.dfy`, `DataMesh.dfy`, `Joins.dfy` | clients and their cache; the mesh; the relational join |
| `AsyncMesh.dfy`, `Gather.dfy` | tasks as a state machine and its refinement; the asynchronous program |
| `Permissions.dfy`, `ModuleAccess.dfy`, `WorkflowAccess.dfy` | bit strings and codec; the two decision procedures |
| `Consortium.dfy` | custody requests |

I/O is a parameter: what the services answer to the method of the incoming request (`Network`; that
an answer stays the same is realistic for GET only), the local objects and the access check
(`World`), fetched specifications (`Api`). Database tables are sequences of rows with fresh keys.
Objects whose dicts, caches or tables change in place are classes (`Swagger`, `SwaggerClient`,
`DataItem`, `Mesh`, `Command`, `RelationshipTable`, `Store`, `ConsortiumTable`).

Where the code does not do what it announces:

- An API name with a quote, a backslash or a control character breaks the rename of some
  specification, any other name of none (`Aggregator.SpecificationRenameExactly`). An API name with
  a slash, with `~0` or `~1`, or with a `~` at its end breaks references; any other name keeps all
  that are meant for the rename (`References.PointerSafeKeepsExactly`).
- A definition can be referred to after the rename exactly when its name does not hold the text
  `#/definitions/` (`References.DefinitionNameExactly`), and among the references that begin with
  this text exactly those survive that hold it nowhere else, neither as it is nor spelled with `~1`
  in one of their names (`References.DefinitionRefExactly`).
- Services of which one name begins another can lose definitions, others cannot
  (`References.NamesNeverClashExactly`).
- References to the shared parameters and responses of a service always dangle in the merged
  document, which has no such sections (`References.ParametersAndResponsesDangle`).
- The local cache mixes objects up exactly when the key prefix of one kind of object begins that of
  another, which takes a dot inside a name or endpoints that differ in slashes only
  (`DataMesh.LocalCacheTransparentExactly`, `DataMesh.DotFreeCacheable`).
- A record whose UUID is not of version 4 can be joined and is found, but asking for its own
  relations raises, because its key is taken for an integer (`JoinTable.OtherVersionNotRecognised`;
  with `6ba7b810-9dad-11d1-80b4-00c04fd430c8`: `JoinTable.NamespaceNotRecognised`). A relationship
  reads the same from both ends exactly when both keys are recognised and the first records do not
  hide one of them (`JoinTable.DirectionSymmetryExactly`).
- The far key column is read off the first join record only (`JoinTable.FirstRecordExactly`).
- A self-relationship can be created, once, but never saved again
  (`Relationships.SelfCreatedExactly`, `Relationships.SavedAgainExactly`).
- A join record that another organization holds is neither returned nor created
  (`Serializers.CompleteRequestExactly`); a request that leaves key columns out may return a record
  it does not determine, or fail because there are several (`Serializers.GetOrCreateExactly`).
- A first applicable group can take access to a service away (`ModuleAccess.FurtherGroupExactly`).
- The mesh asks for GET, but the clients send the method of the incoming request to the related
  services as well (`Joins.MethodIsRepeated`).
- The asynchronous client may call twice for one URL, cache or not: whenever two tasks share one
  (`AsyncMesh.CalledOnceExactly`).

## Model

| member | source | states |
|---|---|---|
| `Rename.TextRenameExactly` | gateway/aggregator.py:97-101 | printing, substituting and parsing is the rename of the tree for every well-formed tree exactly when the API name has no quote, backslash or control character |
| `Rename.TextRenameIsTreeRename` | gateway/aggregator.py:96-101 | for such a name the result is the tree with the rename in every string and key, numbers and shape as they were, and no two keys of an object merged |
| `Rename.UncleanNameFails` | gateway/aggregator.py:97-101 | any other name already fails on the smallest specification with a reference, `{"$ref": "#/definitions/"}` |
| `Rename.QualifyInjective` | gateway/aggregator.py:98-100 | the substitution never makes two strings one, whatever the name |
| `Rename.LoadsDumps` | gateway/aggregator.py:97-98 | `loads` after `dumps` gives back every tree that `loads` can return |
| `Rename.StringRoundTripExactly` | gateway/aggregator.py:97-98 | a string survives `dumps` and `loads` exactly when it holds no surrogate pair as two code points |
| `Parsing.WellFormedExactly` | gateway/aggregator.py:97-101 | the well-formed trees of these theorems are exactly what `loads` returns for texts without lone surrogates |
| `Parsing.LoadsFollowed` | gateway/aggregator.py:97-101 | around a printed dict `loads` accepts white space, and nothing else behind it |
| `Parsing.PrintedAsItself` | gateway/aggregator.py:98-98 | `dumps` prints the characters from space to tilde but quote and backslash as they are, and no others |
| `Replace.ReplacedInjective` | gateway/aggregator.py:98-100 | replacing a self-overlap-free pattern by an extension of it is injective |
| `Replace.ScanReplaced` | gateway/aggregator.py:97-101 | substituting inside the escaped literal and parsing it gives the substituted string |
| `Aggregator.UpdateSpecification` | gateway/aggregator.py:59-75 | the loop yields the entries of the section under prefixed names, and nothing when the section is missing |
| `Aggregator.SpecificationRenameExactly` | gateway/aggregator.py:96-101 | on specifications, too, the text route is the tree rename exactly for names without quote, backslash and control character |
| `Aggregator.RenamedByText` | gateway/aggregator.py:97-101 | the text route is the tree rename for a name that needs no escape, and for any name when the printed specification has no marker |
| `Aggregator.LoadedIsDict` | gateway/aggregator.py:97-101 | whatever the name, what comes back from the text is a dict whose sections have distinct keys |
| `Aggregator.Swagger.MergeAggregates` | gateway/aggregator.py:77-119 | the merge raises exactly when some specification does not come back from its text with its sections; otherwise definitions and paths are the merge, service after service, of what came back, prefixed but for the paths of `buildly`; for names that need no escape that is the tree-renamed specification |
| `Aggregator.MergeExactly` | gateway/aggregator.py:103-117 | the merge loses no entry exactly when no two services put different things under one name |
| `Aggregator.MergeAllSource` | gateway/aggregator.py:105-117 | every merged entry is that of the last service that has its name, and every name of a service is merged |
| `Aggregator.PrefixedGet` | gateway/aggregator.py:71-73 | a lookup under the prefixed name finds what the plain name had |
| `Aggregator.RenamedGet` | gateway/aggregator.py:97-101 | a lookup under the renamed key finds the renamed value |
| `Aggregator.Swagger.GenerateOperationId` | gateway/aggregator.py:121-135 | the nested loops rewrite each operation id in place; every other entry, operations without an id, entries that are no operations, and all names and places are as before |
| `Aggregator.Swagger.RewriteActions` | gateway/aggregator.py:130-135 | the inner loop does this to one path item |
| `Aggregator.Swagger.GenerateSwagger` | gateway/aggregator.py:137-146 | it raises exactly when the merge does, and else gives the merged definitions and the merged paths with rewritten ids |
| `Aggregator.RewritableMerge` | gateway/aggregator.py:121-135 | when no specification has a path item on which the loop raises, neither has the merge |
| `Aggregator.ActionExactly` | gateway/aggregator.py:130-135 | the loop is said to go through exactly where an entry is a dict whose id is no list or dict, a list without the word `operationId`, or a string that does not hold it |
| `Aggregator.ServiceNameExactly` | gateway/aggregator.py:129-129 | the name put before an id is what stands between the first two slashes of the path |
| `OperationIds.RewrittenId` | gateway/aggregator.py:128-135 | each id becomes the service's name, a dot and the old id; an operation without an id gets none |
| `OperationIds.RewrittenEntry` | gateway/aggregator.py:130-135 | every other entry of every operation is found as it was |
| `OperationIds.EntryExactly` | gateway/aggregator.py:128-135 | an entry of an operation is what three lookups in dicts find, by path, action and name |
| `OperationIds.PathSource` | gateway/aggregator.py:109-117 | a merged path comes from a path of the service, and its first segment is the service's name, or for the gateway the first segment of that path |
| `OperationIds.OwnerOfPath` | gateway/aggregator.py:114-117 | `path.split('/')[1]` of a merged path is the name of the service it belongs to |
| `OperationIds.PathsApart` | gateway/aggregator.py:109-117 | paths with one first segment belong to one service |
| `OperationIds.NoPathLost` | gateway/aggregator.py:109-117 | merging loses no path and every merged path has an owner |
| `OperationIds.CollisionExactly` | gateway/aggregator.py:133-135 | ids of two services can collide exactly when one name begins with the other and a dot |
| `OperationIds.OperationIdsUnique` | gateway/aggregator.py:121-135 | ids unique within each service are unique across the final document, when no first segment begins with another one and a dot |
| `References.ReferencePreserved` | gateway/aggregator.py:96-107 | with prefix-free names a definition reference resolves in the final document exactly when it did in its service's specification, to the renamed copy of the same target |
| `References.ReferencePreservedWithoutClash` | gateway/aggregator.py:96-107 | for any names, a resolving reference keeps its target as long as no two definitions clash |
| `References.MergedDefinitionGet` | gateway/aggregator.py:103-107 | under prefix-free names the merged definitions hold, under a service's name, exactly the service's definitions |
| `References.PrefixFreeNeverClashes` | gateway/aggregator.py:71-73 | prefix-free names exclude every clash |
| `References.RefsRenamed` | gateway/aggregator.py:96-101 | the references of the renamed tree are the renamed references |
| `References.ChainForward` | gateway/aggregator.py:96-107 | as long as no definitions clash, every chain of references of the specification is a chain of the final document |
| `References.ChainBackward` | gateway/aggregator.py:96-107 | the final document has no other chains, when names are prefix-free, or no definitions clash and no reference of the service dangles |
| `References.ClosurePreserved` | gateway/aggregator.py:137-146 | under either of these conditions, from every path of a service the reference closure in the final document, ids rewritten, is the renamed closure |
| `References.OperationPreserved` | gateway/aggregator.py:96-135 | in the final document each entry of an operation but its id is the renamed entry of the specification, and no other entry is there |
| `References.RefsExactly` | gateway/aggregator.py:96-101 | the references these theorems speak of are what a pointer with the last name `$ref` reaches |
| `References.DocumentEntries` | gateway/aggregator.py:83-92 | the document has the version, the copied entries of the configuration and the two merged sections |
| `References.PointerSafeExactly` | gateway/aggregator.py:98-100 | a name can stand before every definition name inside a reference exactly when it has no slash and no `~` that pointer evaluation would take with what follows |
| `References.PointerSafeKeepsExactly` | gateway/aggregator.py:96-107 | exactly under such names every definition reference keeps its target in every aggregation without clashes |
| `References.NamesNeverClashExactly` | gateway/aggregator.py:71-73 | services keep all their definitions, whatever these are, exactly when no name begins another |
| `References.DefinitionRefExactly` | gateway/aggregator.py:96-107 | a reference `#/definitions/...` keeps its target in every aggregation where it resolves and no definitions clash, exactly when neither its tail nor a name on its way holds the marker |
| `References.DefinitionNameExactly` | gateway/aggregator.py:96-107 | the reference to a definition by its encoded name survives in every aggregation exactly when the name does not hold the marker |
| `References.EncodedResolves` | gateway/aggregator.py:97-101 | the encoded name refers to the definition with this name |
| `References.PointerResolves` | gateway/aggregator.py:96-101 | every place of a document has a local reference that leads to it, by the names on the way; nothing but a text with `#/` in front leads anywhere |
| `References.IndexExactly` | gateway/aggregator.py:96-101 | the name of a place in an array is its decimal spelling |
| `References.OtherSectionDangles` | gateway/aggregator.py:83-92 | a local reference into a section the merged document lacks dangles there |
| `References.ParametersAndResponsesDangle` | gateway/aggregator.py:83-92 | so do all references to shared parameters and responses |
| `Texts.CollisionExactly` | gateway/aggregator.py:72-73 | two names can be completed to one key exactly when one begins the other |
| `JoinTable.PartialConstraintsComplete` | datamesh/models.py:125-159 | under the check constraints the four conditional unique constraints hold exactly when no two rows share relationship, key and related key |
| `JoinTable.CheckedExactly` | datamesh/models.py:149-158 | the two check constraints hold exactly when each side is named by one key, which its columns hold |
| `Keys.ValidUuidDigits` | gateway/utils.py:153-159 | a text that passes the version 4 pattern has 32 hexadecimal digits, so it has a canonical spelling |
| `Keys.ValidUuidExactly` | gateway/utils.py:153-159 | exactly the texts of the pattern pass: five groups of hexadecimal digits of any case, dashes between them or not, version 4 and its variant |
| `Keys.Version4Exactly` | gateway/utils.py:153-159 | of the canonical spellings exactly those of version 4 and its variant pass |
| `Keys.KeyOfExactly` | datamesh/managers.py:25-34 | a lookup by the text of a key looks for this key exactly when the key is recognised; a UUID of another version makes the filter raise |
| `Keys.KeyOfText` | datamesh/managers.py:25-34 | a text stands for the UUID with its digits, whatever their case and dashes, or for the number it spells |
| `Keys.ColumnKeyRecognised` | datamesh/managers.py:25-28 | of the keys that fit their columns all integers and the UUIDs of version 4 are recognised |
| `JoinTable.GetJoinRecords` | datamesh/managers.py:20-34 | the text of the key decides which column is asked; exactly the rows that match are returned, and the filter raises exactly for texts that are no key |
| `JoinTable.MatchingExactly` | datamesh/managers.py:32-34 | each matching row comes back once, in the order of the table |
| `JoinTable.FirstRecordExactly` | datamesh/services.py:59-77 | looking a record up gives the far keys of its rows exactly when its key is recognised and those have one kind |
| `JoinTable.DirectionSymmetryExactly` | datamesh/services.py:59-77 | `b` is found from `a` as often as `a` from `b`, and both lookups succeed, exactly when both keys are recognised and, if related, both or neither show in the column of the first record; a key is found at most once |
| `JoinTable.DirectionSymmetry` | datamesh/services.py:59-77 | where far keys have one kind, exactly when both keys are recognised |
| `JoinTable.OtherVersionNotRecognised` | datamesh/managers.py:25-34 | a join record with a UUID of another version is found from its other end and raises from this one |
| `JoinTable.NamespaceNotRecognised` | datamesh/managers.py:25-34 | the same for one UUID of version 1 |
| `Relationships.RelationshipTable.Save` | datamesh/models.py:89-98 | a save is refused exactly when some row, its own old version included, is the reverse, and then changes nothing; else the row with this primary key is replaced in its place, or the row goes to the end, and every other row keeps its place; the table stays free of reverses and is the one of the run with this save added |
| `Relationships.DeletedExactly` | datamesh/models.py:79-84 | a deletion takes exactly the row with the primary key, or the rows of the model, and keeps the others in order |
| `Relationships.RelationshipTable.GetRelationships` | datamesh/models.py:44-60 | the loop lists the model's relationships with their direction |
| `Relationships.DirectedFlag` | datamesh/models.py:51-60 | a listed pair is a relationship of the model with flag "the model is the origin", and all of them are listed |
| `Relationships.DirectedExactly` | datamesh/models.py:51-60 | each of them is listed once, in the order of the table |
| `Relationships.RunNoReverse` | datamesh/models.py:89-98 | after any sequence of saves and deletions no two rows are reverses of each other |
| `Relationships.UniformDirection` | datamesh/models.py:44-60 | in every run all relationships between two models have one flag, opposite from the other end; a model has at most one self-relationship |
| `Relationships.SavedAgainExactly` | datamesh/models.py:89-98 | a stored relationship can be saved again with its models exactly when these differ |
| `Relationships.SelfCreatedExactly` | datamesh/models.py:89-98 | a self-relationship can be created exactly while the model has none, and not saved after that |
| `LoadRelationships.Command.Handle` | datamesh/management/commands/loadrelationships.py:63-92 | the nested loops and the deletion compute the reconciled table and keep the constraints; the counter grows by the number of contacts of known organizations |
| `LoadRelationships.Command.LoadContact` | datamesh/management/commands/loadrelationships.py:73-83 | the inner loop loads one contact's entries and lists their rows as eligible |
| `LoadRelationships.Command.GetOrCreateRow` | datamesh/management/commands/loadrelationships.py:77-82 | get-or-create finds or adds the one row with the pair and breaks no constraint |
| `LoadRelationships.ReconciliationCorrect` | datamesh/management/commands/loadrelationships.py:63-91 | the relationship ends with exactly the wanted pairs; old rows survive unchanged exactly when wanted; a new row has the organization of the first contact that names its pair; constraints hold |
| `LoadRelationships.OtherRelationshipsUntouched` | datamesh/management/commands/loadrelationships.py:86-91 | rows of other relationships stay, in order |
| `LoadRelationships.ReconciledInOrder` | datamesh/management/commands/loadrelationships.py:77-91 | all rows that remain keep their order, created ones stand behind them |
| `LoadRelationships.SecondRunChangesNothing` | datamesh/management/commands/loadrelationships.py:63-91 | a second run with the same file changes nothing |
| `Serializers.GetOrCreateExactly` | datamesh/serializers.py:61-69 | whatever columns the request gives: one candidate of the organization is returned, with several the call fails, with none a row is created exactly when the completed row names each side by one key and no row has its keys; constraints hold |
| `Serializers.CandidateCases` | datamesh/serializers.py:64-68 | none, one and several candidates are all the cases |
| `Serializers.CandidateExactly` | datamesh/serializers.py:64-68 | a candidate is in the relationship and the organization and has each column given, null included; a completed row has these and is empty otherwise |
| `Serializers.CompleteRequestExactly` | datamesh/serializers.py:61-69 | a request that names each side by one key is never ambiguous, and succeeds exactly when no other organization holds the record |
| `Serializers.GetOrCreateTwice` | datamesh/serializers.py:64-69 | asking again after a success gives the same record and changes nothing |
| `Serializers.Store.GetOrCreateRelationship` | datamesh/serializers.py:58-60 | the relationship is found, or added behind all others with the two models and an empty key, or refused exactly when several lead from one model to the other, or none does but one leads back |
| `Serializers.Store.Create` | datamesh/serializers.py:50-69 | the call fails where the relationship is refused, and else gets or creates a record with the given columns and organization in the one relationship of the named models |
| `Serializers.Store.Change` | datamesh/serializers.py:71-86 | the record moves to the relationship of the named models with the columns given, exactly when it then names each side by one key that no other row has; it keeps the columns left out, primary key and organization, and no other row changes |
| `Clients.SwaggerClient.Request` | gateway/clients.py:123-163 | without a declared operation nothing is called; under GET without query parameters a cached answer is given without a call; else the URL is called once and a given answer stored under GET; the state is the one of the run with this request added, and when the cache agrees with the services, the answer is theirs |
| `Clients.RunSound` | gateway/clients.py:130-163 | over every run of cacheable requests an entry is an answer given for its URL, and each URL is successfully called at most once |
| `Clients.CacheIsTransparent` | gateway/clients.py:130-163 | with stable services every answer equals the uncached one |
| `Clients.PatternExactly` | gateway/clients.py:40-48 | a version 4 UUID is asked for at `/model/{uuid}/`, any other key at `/model/{id}/`, no key at `/model/` |
| `Clients.RefusedExactly` | gateway/clients.py:50-60 | a request is refused exactly when the specification declares this path neither for its method nor, for OPTIONS, for GET |
| `Clients.UrlOfDeclared` | gateway/clients.py:61-67 | the URL is the address of the service without slashes at its end and the declared path with the key in its place |
| `Clients.UrlOfList` | gateway/clients.py:61-67 | without a key the declared path is asked for as it stands |
| `Clients.UrlOfRecord` | gateway/clients.py:36-69 | a service that declares the record path as it is asked for is called at base, model and key |
| `Clients.RecordUrlInjective` | gateway/clients.py:64-69 | different records have different URLs |
| `DataMesh.Mesh.GetRelatedRecordsMeta` | datamesh/services.py:55-77 | the nested loops yield the lookups of all relationships in order, forwards by service, endpoint without slashes and lookup field of the related model, backwards of the origin; they raise exactly when there are relationships and the key is not recognised |
| `DataMesh.StripExactly` | datamesh/services.py:72-72 | `strip` gives the one part of the text with slashes around it and none at its ends |
| `DataMesh.TruthyExactly` | datamesh/services.py:130-134 | an item counts as having a key unless its lookup field is empty, null, false or a zero |
| `DataMesh.OriginKeyExactly` | datamesh/managers.py:25-34 | an item with a key as a string or a number is looked up under this key exactly when it is recognised |
| `DataMesh.Mesh.ExtendWithLocal` | datamesh/services.py:92-124 | the object appended, or the error, is the uncached and validated one |
| `DataMesh.LocalCacheTransparent` | datamesh/services.py:92-124 | over every run of local lookups the cache cannot be observed, and what is appended has passed the access check |
| `DataMesh.CacheKeyExactly` | datamesh/services.py:96-99 | a cache key determines the local lookup exactly when no key prefix begins that of another kind of object |
| `DataMesh.LocalCacheTransparentExactly` | datamesh/services.py:92-124 | exactly then no world and no run of local lookups can tell the cache |
| `DataMesh.DotFreeCacheable` | datamesh/services.py:96-99 | dot-free names satisfy this, as long as one service and endpoint have one lookup field |
| `DataMesh.CacheCollisionExactly` | datamesh/services.py:96-99 | two kinds of objects can share a cache key exactly when one key prefix begins the other |
| `DataMesh.Mesh.AddNestedData` | datamesh/services.py:126-162 | the item becomes what the uncached definition says, up to the first error, which is returned |
| `DataMesh.FirstFailure` | datamesh/services.py:139-162 | the error is that of the first lookup that fails, and the item holds what those before it gave |
| `DataMesh.Mesh.ExtendData` | datamesh/services.py:79-90 | the items are extended one after the other up to the first error; the rest is untouched |
| `Joins.SyncIsRelationalJoin` | datamesh/services.py:55-162 | an item extended without an error is the item with, under each key, exactly the records its join records lead to, in order, and its other fields unchanged |
| `Joins.RecordExactly` | datamesh/services.py:92-162 | one lookup gives the record of the model on the other side: the local object if it may be seen, or the dict its service answers; it fails exactly when the local model is unknown, the object may not be seen, or the service is missing, does not declare the operation or does not answer |
| `Joins.MeshSucceedsExactly` | datamesh/services.py:126-162 | an item is extended exactly when it has a key in its lookup field, the key is recognised, and every record that it is joined with can be asked for |
| `Joins.FailureExactly` | datamesh/services.py:100-162 | which of the four errors a lookup raises, by what is missing |
| `Joins.NoKeyFails` | datamesh/services.py:130-139 | without a key an item is left as it is and the error says so; with one that is not recognised its lists are emptied |
| `Joins.DistinctKeysNested` | datamesh/services.py:136-155 | with distinct keys each list is the join of its own relationship |
| `Joins.ClientCoverage` | datamesh/services.py:36-53 | when local models stand on the related side only, every remote lookup names a related logic module |
| `Joins.MethodIsRepeated` | gateway/clients.py:51-61 | a related record is found only where its service declares the method of the incoming request |
| `Joins.JoinResponseData` | gateway/request.py:184-201 | with fresh clients for the related modules no item fails for want of a client, and under GET no client successfully asks for a URL twice during the whole response |
| `AsyncMesh.AsyncRefinesSync` | datamesh/services.py:164-221 | in every interleaving that runs to the end each item has the records of the synchronous run under each key, nothing of another item, and its other fields |
| `AsyncMesh.TaskExactly` | datamesh/services.py:192-204 | a task writes to the list of its relationship in its own item, and asks the service of its lookup at the URL prepared from it |
| `AsyncMesh.StepKeepsInvariant` | datamesh/services.py:206-221 | at every step each list holds its local records and those of its finished tasks, and caches agree with the services |
| `AsyncMesh.StepDecreases` | datamesh/services.py:178-178 | every step takes unfinished work away |
| `AsyncMesh.CachedWasGiven` | gateway/clients.py:169-203 | whatever the services answer and when, no interleaving caches an answer that was not given for its URL |
| `AsyncMesh.LateTaskNeverCalls` | gateway/clients.py:173-201 | under GET a task that starts after an answer for its address has arrived never calls |
| `AsyncMesh.OtherMethodsUncached` | gateway/clients.py:172-201 | under any other method nothing is cached |
| `AsyncMesh.CalledOnceExactly` | gateway/clients.py:169-203 | every interleaving calls each address once at most exactly when no two tasks share one |
| `AsyncMesh.CallMayBeRepeated` | gateway/clients.py:172-201 | any two tasks with one address that both start before an answer arrives call twice |
| `Gather.PrepareTasks` | datamesh/services.py:180-204 | local records are appended at once, each remote lookup becomes one task |
| `Gather.GatherTasks` | datamesh/services.py:178-178 | any schedule of the tasks ends with all of them done |
| `Gather.AsyncExtendData` | datamesh/services.py:164-178 | it succeeds on exactly the responses that the synchronous mesh extends without an error, and extends them to the same items up to order |
| `Permissions.Merge` | core/permissions.py:11-15 | a digit of the merge is set exactly when one of the two is |
| `Permissions.MergeGroupsGrants` | core/permissions.py:11-42 | a folded string grants a name exactly when the default or some group does |
| `Permissions.GrantsExactly` | core/permissions.py:18-42 | a group grants POST and create by the create digit of its number, GET, HEAD, OPTIONS, list and retrieve by read, PUT, PATCH, update and partial_update by update, DELETE and destroy by delete, and no other name |
| `Permissions.RepresentationExactly` | core/serializers.py:54-56 | the four digits are the binary digits of the number, all set from 15 on |
| `Permissions.FoldIsBitOr` | core/models.py:242-244 | folding from `0000` is the display string of the bitwise OR of the clamped numbers |
| `Permissions.NumberRoundTrip` | core/serializers.py:54-67 | a number survives the codec up to clamping at 15 |
| `Permissions.DictRoundTrip` | core/serializers.py:54-67 | exactly the dicts with the four keys are accepted, and they survive |
| `ModuleAccess.CheckModule` | gateway/permissions.py:24-68 | the folded decision is "no group is global or an org-level group of the organization, or one of these grants the method" |
| `ModuleAccess.OrderAndDuplicatesIrrelevant` | gateway/permissions.py:49-57 | order and repetition of groups do not matter |
| `ModuleAccess.FurtherGroupExactly` | gateway/permissions.py:33-68 | a further group takes access away exactly when it is the first that applies and does not grant |
| `WorkflowAccess.CollectPermissions` | workflow/permissions.py:65-90 | the global, organization and level entries grant a name exactly when `0100` does or a group grants it that is global, that is not but is org-level, or that is neither and attached to the level |
| `WorkflowAccess.CheckPermission` | workflow/permissions.py:53-125 | active users are allowed exactly if they are superuser or in a global group with all permissions, or the action is no substring of `create`, or some group grants it that is global, org-level or attached to a named level |
| `WorkflowAccess.CheckLevels` | workflow/permissions.py:99-122 | a named level grants the action exactly when some group does that is attached to it and neither global nor org-level |
| `WorkflowAccess.CheckObject` | workflow/permissions.py:151-180 | the early-return loop equals "superuser, or in a global or org-level group with all permissions, or the object is neither a level nor under one, or some org-level group, for a level itself, or attached group, for what is under a level, grants the action" |
| `WorkflowAccess.JoiningKeepsPermissions` | workflow/permissions.py:73-122 | joining a further group never takes a permission away |
| `WorkflowAccess.OnlyCreateIsWithinCreate` | workflow/permissions.py:99-99 | of the known actions only `create` passes the substring test |
| `WorkflowAccess.WithinCreateExactly` | workflow/permissions.py:99-99 | the test is passed by exactly the texts that stand somewhere in `create` |
| `Consortium.ConsortiumTable.Post` | gateway/request.py:132-152 | a table that matches the posts so far matches them with this one added: a new shipment gets a row at the end with the organization, a known one gets it at the end of its list unless it is there or none was posted, and nothing else changes |
| `Consortium.RunMatches` | gateway/request.py:132-152 | after any posts there is one consortium for each shipment, whose members are the organizations posted for it, none twice |
| `Consortium.MembershipNeverShrinks` | gateway/request.py:135-147 | rows stay and lists only grow |

## Left out

- Fetching and caching of specifications, HTTP, headers, uploaded files and response status: I/O. The synchronous and asynchronous specification caches differ and no agreement is claimed.
- Django's ORM, migrations, transactions and timestamps; tables are sequences with fresh keys, and a query returns rows in table order.
- OAuth, JWT, e-mail, invitations, view sets, filters, pagination and admin pages: framework configuration.
- Percent-encoding in URI fragments, `NaN` and `Infinity` in JSON, and non-ASCII case folding of model names.
- References into other sections of a specification and to the document as a whole (`#`) are outside the closure theorems, and references to other documents resolve to nothing in the model.
- Numbers keep their spelling; Python's choice of a spelling for a float is not modelled.
- Specifications whose `definitions` or `paths` are not objects, and path items on which the loop would raise, are outside the preconditions of the aggregator.
- Aggregator.Swagger.GenerateOperationId: an operation id that is a list or a dict, whose spelling by `format` is not modelled.
- Aggregator.Swagger.RewriteActions: the same.
- Aggregator.Swagger.GenerateSwagger: the same.
- Integers beyond the range of a `PositiveIntegerField`, which the serializer and the database refuse.
- Aliasing between the items of a response: the items are distinct objects, as they are after parsing JSON.
- Clients.SwaggerClient.Request: an OPTIONS request that the specification declares neither as such nor as GET raises another error than the one the model answers with.
- DataMesh.Mesh.AddNestedData: signs, spaces, underscores and non-ASCII digits that `int` accepts in an item's key count as a bad key.
- DataMesh.Mesh.ExtendWithLocal: a local object and its dict are one value, and a lookup that raises for a malformed key counts as an absent object.
- Serializers.Store.Change: a partial update without model names, which raises, and model choices whose service and model names run together to one text.
- Joins.SyncIsRelationalJoin: nothing is claimed when far keys are of mixed kinds; `JoinTable.FirstRecordExactly` says when that is.
- AsyncMesh.AsyncRefinesSync: nothing is claimed about the items when the synchronous run would fail.
- WorkflowAccess.CollectPermissions: the table of `WorkflowLevel2` permissions, which the code builds and never reads, and the memoised admin flags.
- Consortium.ConsortiumTable.Post: malformed organization keys, which raise, and shipments without a name, which the database refuses.
