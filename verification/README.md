# nature-id: taxonomic tree, reference resolver and API throttle in Dafny

nature-id identifies plants, birds and insects in photos. It uses offline
classifiers whose labels are taxa. This project models the logic around the
classifier:

- **Taxonomic tree** (`nature_id.py`, class `Taxonomy`).
  - The tree is rooted at "Life" (id 48460, rank level 100).
  - It is either read from a taxonomy file of pre-order rows, or computed
    from a label file: each label is resolved against the iNaturalist
    reference taxonomy, then its taxon and its kingdom-first ancestors are
    merged into the tree. A label that cannot be resolved becomes a
    pseudo-kingdom with a fresh negative id.
  - Classifier probabilities are summed bottom-up (`assign_scores`).
  - The prediction is a greedy path down from the root. It stops at a node
    whose best child holds less than half of that node's score.
  - The tree is written back as pre-order rows.
- **Reference-taxonomy resolver** (`inat_taxonomy.py`).
  - The rank-level tables.
  - The per-row rules for loading `taxa.csv`: the parent id, and the
    registration of unknown ranks.
  - `get_ancestors`, and `lookup_id`: exact match, homonym choice, and the
    remote fallback with its lowest-common-ancestor loop.
  - `beautify_common_name`, and how common-names files are chosen and
    applied.
- **API throttle and cache** (`inat_api.py`).
  - A sliding-window rate limiter: at most 60 calls in 60 s.
  - A response cache with a two-week lifetime.
  - A retry loop for status 429 whose delay doubles each time.
  - Everything runs over an explicit clock.

The data are immutable datatypes, and the operations are pure functions.
There are two exceptions: the two loops that pick the best child and walk the
greedy path (`Scoring.FirstBest`, `Scoring.Prediction`), and the fetch-retry
loop (`ApiCache.Retry`, used by `ApiCache.Fetch`), which are methods with loop invariants. A Python
dict is modelled as a `map` plus an insertion-order `seq` where its iteration
order matters: `Taxonomy.order`, and `LabelMap.keys` for `idx2label`.

Modules:

| file | module | what it holds |
|---|---|---|
| wrappers.dfy | Wrappers | `Option`, `Distinct` |
| text.dfy | Text | `str(int)`, `int(str)`, `str.split(sep)`, `sep.join` |
| ranks.dfy | Ranks | root constants, rank tables, registry |
| reference.dfy | Reference, ReferenceLoad | reference taxa, the parent-id rule, loading `taxa.csv` rows |
| lineage.dfy | Lineage | `get_ancestors`, chains of parents |
| resolver.dfy | Resolver | `lookup_id`: homonyms, remote filter, lowest common ancestor |
| tree.dfy | TaxonTree | the tree, its validity, pre-order, leaf ids, `get_rank`, `get_name` |
| synthesis.dfy | Synthesis | `compute_taxonomic_tree` |
| scoring.dfy | Scoring | `assign_scores`, `prediction` |
| taxonomy_file.dfy | TaxonomyFile | `read_taxonomy` row handling, `write_row`, `write_taxonomic_tree` |
| common_names.dfy | CommonNames | `beautify_common_name`, `annotate_common_names` |
| throttle.dfy | Throttling | `Throttle.wait` |
| api_cache.dfy | ApiCache | URLs, parameter normalisation, cache freshness, 429 retry |

## Model

| member | source | states |
|---|---|---|
| Text.ParseInt | nature_id.py:95 | `int(s)` succeeds on an optional sign followed by at least one ASCII decimal digit, and reads that integer |
| Text.ParseIntToString | nature_id.py:152-154 | reading back the decimal text of any integer that `str` writes gives the same integer |
| Text.SplitJoin | nature_id.py:107-110 | splitting a `;`-joined list gives back the parts, provided no part contains the separator |
| Text.LastPart | inat_taxonomy.py:111 | `split('/')[-1]` is a suffix of the string that contains no `/` |
| Text.LastPartAfterLastSeparator | inat_taxonomy.py:111 | `split('/')[-1]` is the whole string when there is no `/`, and otherwise starts right after the last `/`: it is the longest suffix without `/` |
| Ranks.BaseRegistryIsInverse | inat_taxonomy.py:23-67 | the name→level table is the exact inverse of the base level→name table, and kingdom maps to 70 |
| Ranks.TablesAreInverse | inat_taxonomy.py:63-65 | for any duplicate-free list of (level, name) pairs, the two tables built from it are inverse to each other |
| Ranks.RankName | inat_taxonomy.py:73-75 | a registered level yields its registered name, and any other level yields `'clade'` |
| Ranks.RankLevel | inat_taxonomy.py:69-71 | a level is returned exactly for registered names; an unregistered name is the failed assertion |
| Ranks.ExtendRegistry | inat_taxonomy.py:116-128 | a new rank maps to the reported level, or to -1 when the lookup failed. The level→name table gains the entry only for a level not yet registered. No existing entry changes |
| Ranks.ExtendKeepsLevelNamesResolvable | inat_taxonomy.py:116-128 | after registering a rank, every registered level's name is still a registered name |
| Reference.RowParent | inat_taxonomy.py:110-113 | the parent is the integer after the last `/`. An empty segment means the root, or no parent for the root row itself. A non-numeric segment is the ValueError |
| Reference.RowParentOfUrl | inat_taxonomy.py:111-113 | a `parentNameUsageID` URL ending in `/<id>` yields that parent id |
| ReferenceLoad.RegisterRowRank | inat_taxonomy.py:116-128 | a known rank leaves the registry unchanged. An unknown rank is registered with the first reported level, or with -1 when the lookup failed. An empty result list is the IndexError |
| ReferenceLoad.LoadTaxonomy | inat_taxonomy.py:92-146 | an already loaded store is returned unchanged. A failure leaves both indexes empty. A successful load contains the root |
| ReferenceLoad.LoadTaxonomyIndexesRows | inat_taxonomy.py:110-136 | after a successful load, the id index holds exactly the rows' taxa, with no id twice. The name index lists every row's taxon under its name, in row order. The registry only grows |
| Lineage.Ancestors | inat_taxonomy.py:229-233 | the list ends with the taxon itself, and each element is the parent of the next. Its first element is the first taxon at or above kingdom, and every later one is below kingdom |
| Lineage.AncestorsAbove | inat_taxonomy.py:260-262 | the ancestors returned with a taxon exclude it. They are empty when it is at or above kingdom, and otherwise end with its parent |
| Lineage.UpChainRanks | inat_taxonomy.py:229-233 | every proper ancestor of a taxon has a strictly greater rank level |
| Lineage.UpChainTransitive | inat_taxonomy.py:229-233 | an ancestor of an ancestor is an ancestor |
| Resolver.LoadedStoreIsCoherent | inat_taxonomy.py:129-135 | in a loaded store, every name lists at least one taxon, and each listed taxon is the id index's entry for its id |
| Resolver.LastDesired | inat_taxonomy.py:248-253 | the loop without `break` keeps the last homonym whose rank name is desired: no later homonym qualifies |
| Resolver.PickHomonym | inat_taxonomy.py:248-255 | the chosen taxon is one of the homonyms |
| Resolver.FilterResults | inat_taxonomy.py:271-276 | the exact-`sci`-name filter applies only to more than one result, and only when it keeps something. When it applies, it keeps exactly the results carrying the name. When some result carries the name, something is kept |
| Resolver.ExactMatchesQualify | inat_taxonomy.py:273-274 | every exact match carries a `sci` name equal to the query |
| Resolver.Candidates | inat_taxonomy.py:277-278 | the candidates are exactly the result ids known to the id index, without duplicates |
| Resolver.Lift | inat_taxonomy.py:283-291 | one loop round replaces each candidate at the minimum rank level by its parent and keeps the others, without duplicates |
| Resolver.LiftRaisesMinimum | inat_taxonomy.py:281-291 | each round strictly shrinks the set of taxa at or above the minimum rank level, so the loop terminates |
| Resolver.LcaIsLowestCommonAncestor | inat_taxonomy.py:281-292 | the loop ends with a common ancestor of all candidates, and every common ancestor is an ancestor of it |
| Resolver.Resolve | inat_taxonomy.py:237-296 | an unloaded taxonomy or a missing remote response gives None. A single exact match is returned directly, and a homonym choice is one of the name's taxa. The ancestors always come from `get_ancestors` |
| Resolver.ResolveHomonyms | inat_taxonomy.py:240-259 | with homonyms, the result is the last one whose rank name is desired, or the first homonym when none is |
| Resolver.ResolveRemoteIsLowestCommonAncestor | inat_taxonomy.py:266-296 | remotely, the result is None exactly when no candidate is known locally. Otherwise it is the lowest common ancestor of the candidates |
| TaxonTree.EmptyTaxonomyIsValid | nature_id.py:67-80 | a fresh or reset taxonomy (the root "Life" alone) is a valid tree |
| TaxonTree.PreorderIsPermutation | nature_id.py:151-166 | the pre-order walk from the root visits every node of a valid tree exactly once |
| TaxonTree.SameShapeKeepsValid | nature_id.py:34-47 | changing only names, ranks, common names or leaf ids keeps a tree valid |
| TaxonTree.GetRank | nature_id.py:50-54 | a pseudo-kingdom (negative id) has rank `''`, and fails (the `assert`) exactly when its level is not the kingdom level. Any other node has its level's registered name, or `'clade'` |
| TaxonTree.RanksDefined | nature_id.py:50-54 | `get_rank` succeeds on every node of a tree exactly when every pseudo-kingdom in it sits on the kingdom level |
| TaxonTree.GetName | nature_id.py:57-61 | a non-empty common name gives `"common (scientific)"`, with both parts recoverable from the result. Otherwise the result is the scientific name |
| Synthesis.AppendLeaf | nature_id.py:234 | appending a class index changes only that node's leaf ids, by adding the index at the end |
| Synthesis.AddChildKeepsValid | nature_id.py:46-47 | adding a fresh leaf node under an existing node keeps the tree valid. The node's id goes at the end of the order and at the end of the parent's children, and its leaf ids go at the end of all leaf ids |
| Synthesis.AddChildAttached | nature_id.py:46-47 | adding a reference taxon below its tree parent, with its reference name and rank level, or a single-index pseudo-kingdom below the root, keeps every node and edge of the tree one the reference taxonomy implies |
| Synthesis.MergeAncestors | nature_id.py:210-221 | after merging, every ancestor is in the tree and nothing was removed. The walk ends at the last ancestor, or at the starting node when there are none |
| Synthesis.MergeCopiesAncestors | nature_id.py:214-220 | every node the merge adds carries the id, name and rank level of one of the ancestors, and every node already present keeps its name and rank level |
| Synthesis.MergeKeepsValid | nature_id.py:210-221 | merging an ancestor chain keeps the tree valid and leaves all leaf ids unchanged |
| Synthesis.MergeAttached | nature_id.py:210-221 | each new ancestor is added below the one before it (the first below the starting node) with its own name and rank level, so a chain of reference parents keeps every node and edge one the reference taxonomy implies |
| Synthesis.ResolvedChain | inat_taxonomy.py:260-262 | the ancestors returned with a taxon form a chain below the root: the first hangs below the root and each other one below its reference parent, and the taxon below the last of them |
| Synthesis.PlaceTaxon | nature_id.py:223-234 | placing fails exactly when the id is already in the tree with another name or rank level (the failed `assert`). On success, the taxon's node carries the taxon's name and rank level and holds the label's index |
| Synthesis.PlaceKeepsValid | nature_id.py:223-234 | placing a taxon keeps the tree valid and adds exactly one leaf id, the label's index |
| Synthesis.AddLeafNodeKeepsValid | nature_id.py:229-234 | inserting a new taxon and appending the label's index to it keeps the tree valid, grows it by that one id, and adds the index once |
| Synthesis.PlaceAttached | nature_id.py:223-234 | a new taxon is added below the last merged ancestor, which is its tree parent, so the edges stay those the reference taxonomy implies |
| Synthesis.SynthesizeLabelKeepsValid | nature_id.py:190-234 | handling one label keeps the tree valid and only grows it. It adds exactly one leaf id, the label's index, and the pseudo-kingdom ids run from -1 down to the last one handed out, without a gap |
| Synthesis.SynthesizeLabelPlaces | nature_id.py:190-234 | the label's index lands on the node of its resolved taxon, which carries the taxon's name and rank level. The taxon's ancestors are in the tree, the first a child of the root, each next one a child of the previous, and the taxon a child of the last. An unresolved label becomes a negative-id child of the root, named after the label and holding just its index |
| Synthesis.SynthesizeKeepsValid | nature_id.py:188-234 | the label loop keeps the tree valid and only grows it. Over the whole loop it adds each label's index exactly once |
| Synthesis.SynthesizePlacesLabels | nature_id.py:188-234 | when the loop runs to the end, every label is still placed as its own step placed it: on its taxon at the end of its ancestor chain from the root, or alone on its pseudo-kingdom below the root |
| Synthesis.SynthesizeKeepsAttached | nature_id.py:188-234 | the label loop keeps every edge of the tree one the reference taxonomy implies |
| Synthesis.ComputeTaxonomicTree | nature_id.py:178-234 | without a reference taxonomy no tree is built; a clash names one of the labels |
| Synthesis.ComputedTreeIsValid | nature_id.py:178-234 | a computed tree is valid, so every id appears once and every non-root node has one parent. Its leaf ids are exactly the labels' indexes. Each label's index is on a node with its taxon's name and rank level, hanging along its ancestor chain, or on a pseudo-kingdom of its own. Every pseudo-kingdom has rank level 70, so `get_rank` never fails on it |
| Synthesis.ComputedTreeIsAttached | nature_id.py:178-234 | in a computed tree, every reference taxon other than the root carries its reference name and rank level and is a child of its reference parent, or of the root from the kingdom level up. Every pseudo-kingdom is a child of the root holding a single index, and their ids are -1, -2, ... without a gap |
| Scoring.ScoreIsSubtreeSum | nature_id.py:241-247 | a node's score is the sum of the probabilities of all leaf ids in its subtree |
| Scoring.RootScoreIsTotal | nature_id.py:241-247 | the root's score is the sum over every leaf id in the tree |
| Scoring.AssignScores | nature_id.py:241-247 | every node gets a score, and the root's score is the total of all leaf probabilities |
| Scoring.ScoreNonNegative | nature_id.py:241-247 | with non-negative probabilities, scores are non-negative and no child's score exceeds its parent's |
| Scoring.FirstBest | nature_id.py:273-276 | the best child has the maximal score, and no earlier child has that score: ties go to the earliest child |
| Scoring.FirstMaxUnique | nature_id.py:273-276 | there is only one first maximum |
| Scoring.Prediction | nature_id.py:265-288 | the path follows the greedy rule from the root. Each entry is the previous entry's best child, holding at least half of its parent's score. The path stops at a node without children or whose best child holds less than half. Each entry carries score/root score, id, rank and display name. The descent fails only at a greedy step onto a pseudo-kingdom off the kingdom level (the `assert` in `get_rank`), which cannot happen when every pseudo-kingdom is on the kingdom level |
| Scoring.GreedyPathUnique | nature_id.py:268-288 | there is exactly one greedy path, so the prediction is determined by the tree and the probabilities |
| Scoring.PathScoresShrink | nature_id.py:279-286 | along the path, each entry's score lies between half and all of the previous node's score, so the shares never increase |
| TaxonomyFile.PutLabels | nature_id.py:107-111 | every leaf id of a row maps to the row's name, and other labels are kept. Insertion order stays duplicate-free |
| TaxonomyFile.ParentFieldRoundTrip | nature_id.py:113-116 | the written parent field (empty for children of the root) reads back as the same parent id |
| TaxonomyFile.LeafFieldRoundTrip | nature_id.py:107-110 | the `;`-joined leaf ids read back as the same list, the empty list included |
| TaxonomyFile.ParseAll | nature_id.py:108-109 | a leaf field parses exactly when every part is an integer, and then to those integers |
| TaxonomyFile.ReadNewTaxonRow | nature_id.py:95-120 | a row for a new id under a known parent adds the node with its name, rank and leaf ids. It appends the node to the parent's children and to the order, and labels its leaf ids |
| TaxonomyFile.WriteReadRoundTrip | nature_id.py:95-120 | reading back the written rows rebuilds every node with the same child lists in the same order, and the same leaf ids, names and rank levels. The order becomes the pre-order, a permutation of the original. The labels are the leaf ids, mapped to their node names. Whether a taxonomy is available is preserved |
| TaxonomyFile.LabelsAlongKeys | nature_id.py:107-111 | the labels read from a taxonomy file are exactly the tree's leaf ids |
| TaxonomyFile.LabelRowsReadNoTree | nature_id.py:90-93 | label rows leave the tree untouched. They fail exactly on a non-integer id, and otherwise add exactly their ids as labels |
| TaxonomyFile.ReadTaxonomyOrLabels | nature_id.py:85-134 | when rows leave no taxonomy, the result is the labels read, kept with distinct keys in insertion order |
| TaxonomyFile.LabelFileComputesTree | nature_id.py:85-134 | a label file yields exactly its ids as labels. It yields a computed tree exactly when the reference taxonomy loads |
| CommonNames.DropParaphyletic | inat_taxonomy.py:150-151 | one trailing `' [paraphyletic]'` is dropped, and nothing else changes |
| CommonNames.CapitalizeParts | inat_taxonomy.py:152-153 | every `-`-part gets its first character upper-cased, and an empty part is the IndexError |
| CommonNames.CapitalizeWord | inat_taxonomy.py:154-155 | `and` and words ending in `.` are kept, and every other word gets its first character upper-cased |
| CommonNames.Words | inat_taxonomy.py:156 | `str.split()` yields non-empty words free of whitespace |
| CommonNames.WordsOfJoin | inat_taxonomy.py:154-156 | splitting single-space-joined words gives the words back |
| CommonNames.BeautifyFails | inat_taxonomy.py:149-156 | beautifying fails exactly when the name, after dropping the suffix, has an empty `-`-part |
| CommonNames.BeautifyWords | inat_taxonomy.py:149-156 | the result has no leading, trailing or doubled whitespace. Its words are the hyphen-capitalised name's words, each capitalised unless `and` or ending in `.` |
| CommonNames.ChosenFilesMatch | inat_taxonomy.py:177-199 | the chosen files are exactly the names files whose language matches perfectly or is a prefix of the user's. Perfect matches come first |
| CommonNames.AnnotateRows | inat_taxonomy.py:199-216 | annotation changes nothing but common names, of the same taxa |
| CommonNames.AnnotateCommonNames | inat_taxonomy.py:193-195 | with no matching names file, nothing is annotated |
| CommonNames.AnnotateKeepsValid | inat_taxonomy.py:199-216 | annotation keeps the tree valid |
| CommonNames.AnnotateFirstWins | inat_taxonomy.py:208-214 | in one-name mode, an already named taxon keeps its name, and an unnamed taxon gets its first vernacular name beautified |
| CommonNames.AnnotateAllNames | inat_taxonomy.py:208-216 | in all-names mode, a taxon's common name becomes all of its beautified vernacular names, in file order, joined by `'; '` |
| Throttling.Wait | inat_api.py:43-52 | `wait` returns no earlier than called, and only evicts entries at least 60 s old. It keeps at most 60 times, the last of which is the return time. It returns at once or exactly when an evicted call turns 60 s old |
| Throttling.ReplayWindow | inat_api.py:43-52 | over any run of calls, among any 61 consecutive returns the last comes at least 60 s after the first. The queue is always the last returns |
| TaxonomyFile.ParseIntStrings | nature_id.py:107-109 | ids written with `str` and read back with `int` come back unchanged and in order |
| ApiCache.SingleIdUrl | inat_api.py:58-61 | asking for one id and for a one-element id list gives the same URL |
| ApiCache.NormalizeParams | inat_api.py:84-86 | booleans become `'true'`/`'false'` and every other value and name is kept |
| ApiCache.NormalizeIdempotent | inat_api.py:84-87 | normalising twice is normalising once |
| ApiCache.SameKeyIffSameSpelling | inat_api.py:84-87 | two parameter lists share a cache key exactly when they agree once booleans are spelled out |
| ApiCache.CachedForTwoWeeks | inat_api.py:63 | an entry stored at T is served exactly while the clock reads at most T + 14 days, and then gives the stored payload |
| ApiCache.FirstAnswer | inat_api.py:66-73 | the retry loop stops at the first response whose status is not 429 |
| ApiCache.BackoffIsPow2 | inat_api.py:64-71 | the pause after the n-th consecutive 429, counted from 0, is 60·2^n seconds |
| ApiCache.SleptIsPow2 | inat_api.py:64-71 | the first n pauses add up to 60·(2^n − 1) seconds |
| ApiCache.AttemptsSleep | inat_api.py:66-73 | after n pauses the throttle keeps at most 60 call times, and the clock has moved on by at least the n pauses |
| ApiCache.NextAttempt | inat_api.py:67-71 | one more attempt sleeps the current pause and then waits for the throttle once more, so the clock moves on by at least that pause |
| ApiCache.Retry | inat_api.py:64-73 | the loop ends at the first status that is not 429, after k such answers. It has slept the k pauses 60·2^j s in order. The throttle and clock are those of k + 1 throttled calls with those pauses between them |
| ApiCache.Fetch | inat_api.py:57-105 | a fresh cache entry is returned with no call and no sleep. Otherwise the k 429 answers cost k + 1 throttled calls with sleeps of 60·2^j s between them, and the clock ends at least the sum of the sleeps later. Status 200 stores (request start time, payload) and returns the payload. Any other status returns None with the cache unchanged |

## Left out

- Image decoding, the TensorFlow Lite classifier, model discovery and the command line are not modelled. They are foreign library calls and file plumbing.
- Files, zip archives, CSV quoting, text encodings, `shelve` and `pickle` are not modelled. A CSV row is a record, the cache is a map, and a `get_taxa` cache key is the normalised parameter list.
- HTTP and JSON are not modelled. The server is a sequence of (status, payload) answers; a rank lookup and a name search are abstract replies passed in as functions of the id or name.
- Wall-clock time and `time.sleep` are not modelled as effects. The clock is a parameter, and time passes only in the throttle's waits and the retry sleeps, each lasting exactly as asked.
- Printing, timing diagnostics, the `label_probabilities_only` top-K (`argpartition`) and `annotate_labels_with_common_names` are not modelled. They only produce output.
- `get_taxa_by_name`: `lookup_id` calls `inat_api.get_taxa_by_name` (inat_taxonomy.py:266), but inat_api.py defines only `get_taxa_by_id` and `get_taxa`. As written, the remote branch therefore raises AttributeError. The model assumes a name search exists and takes its reply as the abstract name-search reply.
- Floating point is not modelled. Probabilities, scores and rank levels are real numbers without rounding, and the int/float spelling of the rank-level column is not modelled.
- The locale query is not modelled. `CommonNames.UserLanguage` takes the locale name as a parameter.
- Unicode case mapping is not modelled. Upper-casing changes only ASCII letters, and whitespace is Python's set of whitespace code points.
- Text.ParseInt: accepts only an optional sign followed by ASCII digits. Python's `int` also strips surrounding whitespace, allows single underscores between digits and accepts non-ASCII decimal digits; the columns it reads here are written by `str` and contain none of these.
- Scoring.Prediction: a zero root score gives a share of None where numpy gives NaN.
- Scoring.AssignScores: requires every leaf id to be a valid Python index into the probabilities (negative ones count from the end), where the source raises IndexError.
- Scoring.Prediction: has the same requirement, since it scores the tree first. A leaf id out of range makes the source raise IndexError before any path is walked.
- Scoring.ScoreIsSubtreeSum, Scoring.RootScoreIsTotal, Scoring.ScoreNonNegative, Scoring.GreedyPathUnique, Scoring.PathScoresShrink: state their facts under the same requirement, because the scores they talk about exist only then.
- ApiCache.Fetch: requires the server to answer something other than 429 eventually. The source would retry forever.
- Resolver.Resolve: requires a coherent store, as loading produces. The lowest-common-ancestor lemmas also require a well-formed id index: the root is present, only the root lacks a parent, and each parent is present with a strictly greater rank level. The source needs less: it handles any store whose parent links are acyclic and reach the root. A store where a parent has the same rank level as its child is handled by the source and excluded by the model. On a store with a missing parent or a cycle, the source raises KeyError or loops.
- Synthesis.ComputedTreeIsValid: requires non-negative reference ids, as iNaturalist's are, so that pseudo-kingdom ids never collide with them.
- TaxonomyFile.WriteReadRoundTrip: requires the root to be the standard "Life" node without leaf ids. Common names are not part of the file, and the order of the read-back tree is the pre-order rather than the original insertion order.
- TaxonomyFile.ReadTaxonomyOrLabels: a file whose rows never attach anything to the root is treated as a label file, and its tree is computed from scratch. The source computes on top of the nodes already read. A placeholder parent created for a forward reference gets name `""` and rank level 0 where the source has None.
- CommonNames.AnnotateRows: a vernacular name with an empty `-`-part stops the annotation with the names set so far kept, as the source's caught IndexError does.
- ApiCache.CachedForTwoWeeks: follows the code. An entry exactly 14 days old is still served, because the code refetches only when the stamp is strictly older than now minus 14 days.
