# n8n workflow builder: node validator, node catalogue and resource routing

This project is a Dafny model of three parts of an MCP server that talks to an n8n instance, with proofs about each part.

- **The node validator** (`src/node-validator.ts`) is a class with four pieces of state:
  - an insertion-ordered map from node type to descriptor;
  - the time of the last fetch;
  - the `is_fetching` flag;
  - the in-flight fetch handle.

  Its refresh policy reloads the catalogue when the registry is empty or older than one hour. A load either:
  - replaces the registry with the fetched entries;
  - keeps the cached data after a failure;
  - or falls back to a fixed list of eight common nodes when a failure leaves nothing cached.

  Node types are checked by exact membership. A miss is answered with the most similar known type, scored with a case-insensitive Levenshtein similarity above a threshold of 0.6.
- **The `list_available_nodes` tool** (`src/tool-handlers/node-tools.ts`) does four things in order:
  - sorts the catalogue by name in place;
  - groups it by the category prefix of each name;
  - optionally keeps one category, compared ignoring case;
  - renders a header and then either per-category counts or per-category node lines, depending on the verbosity.
- **The `resources/read` handler** (`src/resource-handlers.ts`) maps a URI to one of three routes:
  - the workflow list;
  - one workflow;
  - one execution.

  Any other URI is an `InvalidRequest` error. A failing API call is an `InternalError` whose message names the id.

## Layout

- `wrappers.dfy` (`Wrappers`): `Option` and `Result`.
- `seqs.dfy` (`Seqs`): distinctness, first index, and `Dedup` (the key order of an insertion-ordered map).
- `text.dfy` (`Text`): ASCII lower-casing, `split` on one character, `join`, and decimal rendering of counts.
- `node_registry.dfy` (`NodeRegistry`): the node descriptor, the insertion-ordered registry with its invariant, the payload loading loop and the fallback list.
- `suggestion.dfy` (`Suggestion`): the recursive Levenshtein distance, the similarity score (with JavaScript's NaN for two empty strings) and the best-match scan.
- `cache.dfy` (`Cache`): the refresh policy and the queries as functions of an abstract state. These are the specification the class is proved against.
- `node_validator.dfy` (`NodeValidator`): the class `NodeValidator`. Its fields and methods follow the source step by step, including the 2-D dynamic-programming table.
- `node_tools.dfy` (`NodeTools`): the name order, the in-place insertion sort on an array, the grouping loop over a map, the filter, the rendering and the handler.
- `resource_handlers.dfy` (`ResourceHandlers`): the regular-expression routes, the read handler and its errors.

The clock, the HTTP exchange and the API calls are inputs:
- An `Access` carries the `Date.now()` reading on entry to `ensure_node_registry_is_loaded`, the outcome of the fetch that call may start, and the `Date.now()` reading when that fetch completes.
- An `ApiOutcome` is what an API call of the read handler returned or threw.

## Model

| member | source | states |
|---|---|---|
| Cache.AfterEnsure | src/node-validator.ts:112-138 | Nothing changes when a load is in flight or the cache is fresh. Otherwise one fetch runs, and both in-flight markers are cleared afterwards. An empty registry always starts a load unless one is already in flight. |
| Cache.AfterEnsureWellFormed | src/node-validator.ts:143-198 | Every refresh path keeps the registry invariant: distinct keys, exactly the map's keys, each value stored under its own non-empty name. |
| Cache.SuccessfulLoad | src/node-validator.ts:159-180 | A successful load makes the keys exactly the named payload entries, each at its first position. Each key holds the descriptor of the last entry with that name. The fetch time becomes the completion time and the markers are cleared. |
| Cache.NonArrayBodyEmpties | src/node-validator.ts:161-180 | A parsed body without a `data` array clears the registry, even a full one, and stamps the fetch time. |
| Cache.FailedLoadKeepsData | src/node-validator.ts:185-197 | A failed refresh of a non-empty registry leaves the registry and the fetch time unchanged. |
| Cache.FailedLoadUsesFallback | src/node-validator.ts:191-197 | A failed first load gives exactly the eight fallback names, in list order, and stamps the time. Every fallback name then validates with no suggestion. |
| Cache.NullEntryAbortsLoad | src/node-validator.ts:166-176 | A `null` element aborts the loop. The entries stored before it are kept and the fetch time is not advanced. If nothing was stored, the fallback list is used and the time stamped. |
| Cache.SecondAccessWithinWindow | src/node-validator.ts:120-126 | After a load that stamped a non-empty registry, a call within the hour starts no fetch and changes nothing. |
| Cache.FailedRefreshRetries | src/node-validator.ts:121-124 | A failed refresh of stale data does not advance the fetch time, so every later call fetches again. |
| Cache.Validate | src/node-validator.ts:45-57 | Once the registry is loaded, a type is valid exactly when it is a key, and then has no suggestion. Any suggestion is a key scoring above the threshold. |
| Cache.KeyScoresAreNumbers | src/node-validator.ts:167 | Registry keys are never empty, so every candidate gets a real score in [0, 1], never NaN. |
| Cache.MissSuggestion | src/node-validator.ts:53-57 | On a miss, the suggestion is the first best-scoring key above the threshold. It is absent exactly when no key scores above the threshold. |
| Cache.Flag | src/node-validator.ts:78-83 | One node type adds at most one entry to the list, and adds one exactly when it is invalid. |
| Cache.InvalidOfConcat | src/node-validator.ts:76-86 | The invalid-node filter distributes over concatenation, so answers come in input order with duplicates kept. |
| Cache.InvalidOfSound | src/node-validator.ts:76-86 | Every reported node type is an input, missing from the registry, and carries its own suggestion. |
| Cache.ValidateEachWhileFresh | src/node-validator.ts:66-87 | While the cache stays fresh, the workflow loop fetches nothing and answers exactly with the reference filter over the loaded registry. |
| Cache.ValidateWorkflowExample | src/node-validator.ts:76-86 | For inputs ["a", "known", "b"] where only "known" is a key, "a" and "b" are reported, in that order. |
| NodeRegistry.SetWellFormed | src/node-validator.ts:168-174 | Storing a descriptor under its own non-empty name keeps the invariant and every existing key. |
| NodeRegistry.WellFormedValues | src/node-validator.ts:104-107 | Under the invariant, size zero means an empty map, and the i-th value carries the i-th key as its name. |
| NodeRegistry.NamesOf | src/node-validator.ts:167 | Nameless payload entries are skipped: no stored name is empty. |
| NodeRegistry.LastNamed | src/node-validator.ts:166-176 | For a stored name, gives an index whose entry has that name, with no later entry of that name (the last one). |
| NodeRegistry.LoadWellFormed | src/node-validator.ts:162-177 | Loading any payload into a cleared map gives a well-formed registry. |
| NodeRegistry.LoadNoThrow | src/node-validator.ts:166-167 | A payload without `null` elements never throws. |
| NodeRegistry.LoadKeys | src/node-validator.ts:166-176 | The keys are the deduplicated names in first-appearance order, and a name is a key exactly when some entry has it. |
| NodeRegistry.LoadValue | src/node-validator.ts:168-174 | Each key holds the last descriptor with that name. The display name defaults to the name. |
| NodeRegistry.LoadStopsAfterThrow | src/node-validator.ts:166-176 | Once the loop has thrown, the rest of the payload is never read. |
| NodeRegistry.LoadStopsAtNull | src/node-validator.ts:166-167 | A first `null` element at index p stops the load with exactly the entries before p stored. |
| NodeRegistry.SetAllFresh | src/node-validator.ts:227-232 | Storing descriptors under distinct new names appends them in order and keeps the invariant. |
| NodeRegistry.SetAllFreshValue | src/node-validator.ts:227-232 | Each descriptor stored that way sits under its own name. |
| NodeRegistry.FallbackRegistry | src/node-validator.ts:210-232 | Filling an empty map with the fallback list gives the eight names in list order, each under its fallback descriptor. |
| NodeRegistry.FallbackNamesDistinct | src/node-validator.ts:210-225 | The eight fallback names are pairwise distinct. |
| NodeValidator.NodeValidator.constructor | src/node-validator.ts:22-34 | A new validator has an empty registry, fetch time 0 and no load in flight. |
| NodeValidator.NodeValidator.ValidateNodeType | src/node-validator.ts:42-58 | Runs one refresh step, then answers what `Cache.Validate` answers for the refreshed registry. |
| NodeValidator.NodeValidator.ValidateWorkflowNodes | src/node-validator.ts:66-87 | One refresh step, then one validating call per node, each with its own refresh. The list built in the loop is the invalid types in input order, each with its call's suggestion. |
| NodeValidator.NodeValidator.GetAvailableNodeTypes | src/node-validator.ts:94-97 | After one refresh step, answers the keys in insertion order. |
| NodeValidator.NodeValidator.GetAvailableNodes | src/node-validator.ts:104-107 | After one refresh step, answers the descriptors in key order. |
| NodeValidator.NodeValidator.EnsureNodeRegistryIsLoaded | src/node-validator.ts:112-138 | Moves the state as `Cache.AfterEnsure` says, keeps the invariant, and reports whether a fetch ran. |
| NodeValidator.NodeValidator.FetchNodeRegistry | src/node-validator.ts:143-198 | The clear-and-store loop and the catch block move the state as `Cache.Fetch` says, keeping the invariant. |
| NodeValidator.NodeValidator.RecoverFromFetchError | src/node-validator.ts:185-197 | Keeps a non-empty registry. Otherwise loads the fallback list and stamps the time. |
| NodeValidator.NodeValidator.AddFallbackNodes | src/node-validator.ts:204-233 | Stores each fallback descriptor under its name, in list order, and changes no other field. |
| NodeValidator.NodeValidator.FindSimilarNodeType | src/node-validator.ts:238-255 | The loop over the keys answers the first best-scoring key above 0.6, or none. |
| NodeValidator.NodeValidator.CalculateSimilarity | src/node-validator.ts:261-272 | Answers `Suggestion.Similarity`: one minus the distance of the lower-cased strings over the longer length, NaN for two empty strings. |
| NodeValidator.NodeValidator.LevenshteinDistance | src/node-validator.ts:277-302 | The table filled from row 0 and column 0 gives the recursive Levenshtein distance. |
| NodeValidator.NodeValidator.FillRow | src/node-validator.ts:291-298 | One pass of the inner loop fills row i with prefix distances from row i - 1, and no other row changes. |
| Suggestion.LevStep | src/node-validator.ts:292-297 | If the cells above, left and diagonal hold their prefix distances, then min(above + 1, left + 1, diagonal + cost) is the cell's own prefix distance. The cost is 0 exactly on equal characters. |
| Suggestion.LevEmpty | src/node-validator.ts:281-287 | The distance between a string and the empty string is the string's length. |
| Suggestion.LevSelf | src/node-validator.ts:277-302 | A string is at distance 0 from itself. |
| Suggestion.LevUpperBound | src/node-validator.ts:268-271 | The distance is at most the longer length, so the score is never negative. |
| Suggestion.LevLowerBound | src/node-validator.ts:277-302 | The distance is at least the difference of the lengths. |
| Suggestion.LevZeroIffEqual | src/node-validator.ts:277-302 | The distance is 0 exactly for equal strings. |
| Suggestion.LevSymmetric | src/node-validator.ts:277-302 | The distance does not depend on the argument order. |
| Suggestion.LevDropLast | src/node-validator.ts:277-302 | Dropping the last character is exactly one edit away. |
| Suggestion.ScoreBounds | src/node-validator.ts:271 | For a positive divisor not below the distance, `1 - d / max` lies in [0, 1] and equals 1 exactly when d = 0. |
| Suggestion.SimilarityInUnitInterval | src/node-validator.ts:261-272 | The score is NaN exactly for two empty strings, and lies in [0, 1] otherwise. |
| Suggestion.SimilarityOneIffEqualIgnoringCase | src/node-validator.ts:261-272 | When not both strings are empty, the score is 1 exactly when the strings are equal ignoring case. |
| Suggestion.SimilarityCaseInsensitive | src/node-validator.ts:263-264 | Lower-casing either argument first never changes the score. |
| Suggestion.SimilarityExampleCase | src/node-validator.ts:261-272 | "HttpRequest" against "httprequest" scores 1. |
| Suggestion.SimilarityExampleTypo | src/node-validator.ts:247 | "Merge" against "Merg" scores 0.8, which is above the threshold. |
| Suggestion.SimilarityExampleUnrelated | src/node-validator.ts:247 | "Foo" against "CompletelyUnrelatedName" does not score above the threshold. |
| Suggestion.ScanInvariant | src/node-validator.ts:239-252 | After any prefix of the keys, the scan either has no best key, score 0 and no key above the threshold, or holds the first best key and its score. |
| Suggestion.BestIndexIsFirstBest | src/node-validator.ts:238-255 | There is no suggestion exactly when no key scores above 0.6. Otherwise it is the first key with the highest score: strictly above every earlier key and not below any later one. |
| Suggestion.FirstBestUnique | src/node-validator.ts:247 | The tie rule picks at most one key. |
| Suggestion.FindSimilarIsAKey | src/node-validator.ts:238-255 | Any suggestion is a registry key scoring above the threshold, and there is none exactly when no key scores above it. |
| Text.LowerIdempotent | src/node-validator.ts:263-264 | Lower-casing twice is lower-casing once. |
| Text.SplitJoin | src/tool-handlers/node-tools.ts:36 | Joining the pieces of a split with the separator gives the name back. |
| Text.SplitPiecesFree | src/tool-handlers/node-tools.ts:36 | No piece of a split contains the separator. |
| Text.SplitHead | src/tool-handlers/node-tools.ts:36-37 | A split has more than one piece exactly when the separator occurs. The first piece is then the text before its first occurrence. |
| Text.NatToStringDigits | src/tool-handlers/node-tools.ts:65 | A rendered count consists of decimal digits only. |
| Text.SplitAfterPiece | src/tool-handlers/node-tools.ts:72 | A separator-free line followed by a line break splits into that line, then the pieces of the rest. |
| Seqs.FirstIndex | src/tool-handlers/node-tools.ts:36 | Gives the index of the first occurrence. |
| Seqs.DedupElements | src/tool-handlers/node-tools.ts:39-41 | The deduplicated keys are exactly the inserted keys. |
| Seqs.DedupDistinct | src/tool-handlers/node-tools.ts:39-41 | Each key appears once. |
| Seqs.DedupFirstAppearanceOrder | src/tool-handlers/node-tools.ts:51 | Keys come in the order of their first insertion. |
| NodeTools.NameLeTotal | src/tool-handlers/node-tools.ts:29 | The name order is total. |
| NodeTools.NameLeAntisymmetric | src/tool-handlers/node-tools.ts:29 | Two names in both orders are equal. |
| NodeTools.NameLeTransitive | src/tool-handlers/node-tools.ts:29 | The name order is transitive. |
| NodeTools.RegistryListingKeyed | src/node-validator.ts:104-107 | In the validator's node listing, no two distinct nodes share a name. |
| NodeTools.SortedNodes | src/tool-handlers/node-tools.ts:29 | The reference sort is sorted by name and is a permutation of its input. |
| NodeTools.SortedUnique | src/tool-handlers/node-tools.ts:29 | When names determine nodes, any two sorted permutations are equal. Any sort therefore gives the reference order. |
| NodeTools.SortByName | src/tool-handlers/node-tools.ts:29 | The in-place sort leaves the array sorted by name and a permutation of what it held. |
| NodeTools.CategoryOfName | src/tool-handlers/node-tools.ts:36-37 | The category is the text before the first `.`, or "other" for a name without one. |
| NodeTools.MembersExactly | src/tool-handlers/node-tools.ts:39-47 | A group holds exactly the entries of the nodes of its category. |
| NodeTools.MembersSorted | src/tool-handlers/node-tools.ts:29-47 | Within a group the entries keep the sorted-by-name order. |
| NodeTools.GroupSizesSum | src/tool-handlers/node-tools.ts:34-48 | The group sizes add up to the number of nodes. |
| NodeTools.NodeInExactlyOneGroup | src/tool-handlers/node-tools.ts:34-48 | Every node's entry is in the group of its own category and in no other, and each category has exactly one group. |
| NodeTools.GroupsInFirstAppearanceOrder | src/tool-handlers/node-tools.ts:39-51 | Every group's category occurs among the nodes, and groups come in the order of first occurrence. |
| NodeTools.GroupStep | src/tool-handlers/node-tools.ts:39-47 | One turn of the grouping loop keeps the record equal to the grouping of the nodes seen so far. |
| NodeTools.GroupByCategory | src/tool-handlers/node-tools.ts:32-51 | The grouping loop over the sorted array followed by `Object.entries` gives the reference grouping. |
| NodeTools.KeepCategory | src/tool-handlers/node-tools.ts:53-56 | Keeps exactly the groups whose category equals the wanted one ignoring case, and never more groups than it was given. |
| NodeTools.FilterCategory | src/tool-handlers/node-tools.ts:51-57 | An absent or empty category keeps every group. A given one keeps exactly its own groups, compared ignoring case. |
| NodeTools.KeepConcat | src/tool-handlers/node-tools.ts:53-56 | Filtering a concatenation filters each part and joins the results, so the filter never reorders groups. |
| NodeTools.KeepOrdered | src/tool-handlers/node-tools.ts:53-56 | Groups that follow the first occurrences of their categories still do after the filter. |
| NodeTools.KeptInFirstAppearanceOrder | src/tool-handlers/node-tools.ts:29-57 | Each shown group's category occurs in the sorted catalogue, and the shown groups come in the order their categories first occur there, with or without a category filter. |
| NodeTools.CountLinesAreLines | src/tool-handlers/node-tools.ts:71-73 | When no category contains a line break, the summary lines are exactly one `- category: n nodes` line per group. |
| NodeTools.ListingHeader | src/tool-handlers/node-tools.ts:62-66 | Whatever the filter and verbosity, the listing starts with the header for the full node count, and the groups hold all nodes. |
| NodeTools.KeptGroup | src/tool-handlers/node-tools.ts:51-57 | A shown group is the whole group of a category some node has. |
| NodeTools.SummaryListing | src/tool-handlers/node-tools.ts:69-76 | At 'summary' the listing is the header followed by the counts section. It has one line per shown group, and each count is that category's group size. |
| NodeTools.DefaultIsConcise | src/tool-handlers/node-tools.ts:60 | Without a verbosity the listing equals the concise one and is not the summary. |
| NodeTools.ConciseOmitsDescriptions | src/tool-handlers/node-tools.ts:92-95 | Descriptions never change a concise section. |
| NodeTools.FullAddsPresentDescription | src/tool-handlers/node-tools.ts:88-91 | A full line is the concise line plus " - description" exactly when a description is present. |
| NodeTools.FullWithoutDescriptionsIsConcise | src/tool-handlers/node-tools.ts:82-100 | A group without descriptions reads the same at 'full' as at 'concise'. |
| NodeTools.SortedCatalogue | src/tool-handlers/node-tools.ts:26-29 | The array holding the catalogue, sorted in place, equals the reference sort. |
| NodeTools.AppendCountLines | src/tool-handlers/node-tools.ts:71-73 | The `forEach` appends exactly the count lines of the groups to the output. |
| NodeTools.BuildOutput | src/tool-handlers/node-tools.ts:62-100 | The `output +=` steps produce the header followed by the body for the verbosity. |
| NodeTools.HandleListAvailableNodes | src/tool-handlers/node-tools.ts:19-109 | The handler's text is the listing of the filtered, grouped reference sort. |
| ResourceHandlers.DotsToEndIsValidId | src/resource-handlers.ts:81 | `(.+)$` matches a string exactly when it is non-empty and contains no line terminator. |
| ResourceHandlers.MatchId | src/resource-handlers.ts:81-83 | A match captures the rest of the URI after the prefix, and that rest is a well-formed id. |
| ResourceHandlers.MatchIdOfPrefixed | src/resource-handlers.ts:106-108 | After the prefix, the pattern captures exactly the well-formed ids. |
| ResourceHandlers.Route | src/resource-handlers.ts:132-135 | Every URI that matches no route is an InvalidRequest with message "Invalid URI format: " followed by the URI. |
| ResourceHandlers.RouteOfUri | src/resource-handlers.ts:58-112 | Every well-formed request is reached from its own URI. |
| ResourceHandlers.RouteNamesRequest | src/resource-handlers.ts:58-112 | A routed URI is exactly the URI of its request, and that request is well-formed. |
| ResourceHandlers.ListUriRoutesToList | src/resource-handlers.ts:58-60 | `n8n://workflows` is the list: the exact match comes before the per-id pattern. Both prefixes with an empty id are invalid. |
| ResourceHandlers.IdKeepsSlashes | src/resource-handlers.ts:81-83 | The id runs to the end of the URI, further slashes included. |
| ResourceHandlers.ExecutionExample | src/resource-handlers.ts:106-108 | `n8n://executions/42` is execution "42". |
| ResourceHandlers.LineBreakRejected | src/resource-handlers.ts:81 | A line break inside the id makes the URI invalid. |
| ResourceHandlers.ReadResource | src/resource-handlers.ts:54-136 | A served resource carries the requested URI and the JSON MIME type. |
| ResourceHandlers.ReadInvalidUri | src/resource-handlers.ts:132-135 | An invalid URI is the InvalidRequest error, whatever the API would have done. |
| ResourceHandlers.ReadReturned | src/resource-handlers.ts:59-69 | A routed request's payload is served as JSON under the requested URI. |
| ResourceHandlers.ReadFailureNamesId | src/resource-handlers.ts:95-101 | A failing call of a routed request is an InternalError with the route's fixed wording, the id, ": " and the error text. |
| ResourceHandlers.ErrorTextFallback | src/resource-handlers.ts:122-128 | The error's message is used when non-empty, and `String(error)` otherwise. |

## Left out

- The HTTP request, the status check and `response.json()` of `fetch_node_registry` are replaced by a `FetchOutcome`: failed, a body with a list of raw entries, or a body without a `data` array. The API client is not part of this model.
- Console logging in the validator is not modelled.
- Promise semantics are not modelled. A call that finds a load in flight returns with the state unchanged. Interleaved callers and the waiting itself are not modelled; the two in-flight markers are plain state, cleared after each load.
- `Date.now()` is a parameter: the entry reading and the completion reading of each load.
- `toLowerCase` is modelled on ASCII letters only.
- `localeCompare` in the sort is replaced by lexicographic order on Unicode scalar values.
- Strings are sequences of Unicode scalar values, not of UTF-16 code units. For characters outside the Basic Multilingual Plane, JavaScript counts two code units where the model counts one. So string lengths, the Levenshtein distance, the similarity score's `max_length`, and the sort order of names can differ from the source on such characters.
- The similarity score is an exact real number. IEEE rounding of `1 - distance / max_length` at the 0.6 boundary is not modelled.
- Payload entries are modelled with string fields. An empty `name` or `displayName` stands for a missing or falsy one. Non-string names, and a number `0` or `false` as a display name, are not modelled.
- `Object.entries` lists integer-like keys first. The model assumes first-appearance order for every category. Categories that collide with `Object.prototype` members, such as `constructor`, are not modelled.
- NodeTools.HandleListAvailableNodes: requires that names determine nodes. The validator's listing guarantees this (`NodeTools.RegistryListingKeyed`). It takes the catalogue as a sequence instead of calling the validator.
- The catch branch of `handle_list_available_nodes` is not modelled: nothing in the modelled part throws.
- `JSON.stringify(…, null, 2)` of API payloads is abstracted: a returned outcome carries the rendered text.
- The MCP SDK may decorate an `McpError`'s message. The model keeps the code and the message the error is constructed with.
- The static resource and template lists of `src/resource-handlers.ts` are not modelled, nor the MCP request dispatch and schemas.
- The code does not replace the registry atomically. A `null` element aborts loading after some entries were stored (`Cache.NullEntryAbortsLoad`). A body without a `data` array clears a full registry (`Cache.NonArrayBodyEmpties`). The model follows the code.
