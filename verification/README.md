# Zettelstore, modelled and verified

Zettelstore is a note server. This project models the algorithms at its core in Dafny and proves
what they are for. Every module stands for one component:

| file | component |
|---|---|
| `Zids.dfy`, `Text.dfy` | zettel identifiers, ascending sequences, texts, white space, order of texts |
| `Ids.dfy` | textual forms of identifiers, and the numeric tests for prefixes and suffixes |
| `IdSet.dfy` | the set of identifiers, an ascending slice that is changed in place |
| `Digraph.dfy` | directed graphs: closure, cycle test, reversal, reverse topological sort |
| `BestFirst.dfy`, `CheapestWays.dfy`, `Context.dfy` | the cost- and count-bounded context search, and when it finds the cheapest ways |
| `MapIndex.dfy`, `WordSets.dfy`, `MapSteps.dfy`, `MapStore.dfy` | the in-memory index: words, URLs, links, dead links, inverse references |
| `Anteroom.dfy` | the queue of zettel waiting to be indexed |
| `ZidMapper.dfy` | the mapping between old and new identifiers |
| `Kernel.dfy` | services that start and stop in the order of their dependencies |
| `Directory.dfy`, `DirectoryRun.dfy` | which file of a zettel holds its metadata, which its content, after one event and after many |
| `Meta.dfy`, `MetaLines.dfy`, `ZettelFile.dfy`, `ZettelFileIO.dfy` | metadata, and the text format of zettel files, read and written |
| `Evaluator.dfy`, `Expansion.dfy`, `Repetition.dfy` | transclusion of zettel into each other, what it means, and what it costs |
| `Literal.dfy` | literal text in Zettelmarkup, escaped and read again |
| `FontSizes.dfy` | font sizes for categories |
| `Draw.dfy` | lines and polygons in drawings made of characters |

Code that changes state step by step is modelled by classes and loops. Each such method is proved
against a function or a predicate on values, and what the component promises is then proved of that
function or predicate, for all inputs and all runs.

## Conventions

- Texts are sequences of characters, one `char` for one rune. File names (`Directory.dfy`) are
  sequences of bytes.
- Identifiers are unbounded natural numbers; the bounds of valid identifiers are explicit.
- Costs of the context search are `real`, and the binary logarithm is a function that is handed in
  and only known not to be negative from 1 on, and to be at least 1 from 2 on.
- What the components take from elsewhere is a parameter: the registered metadata keys, how a letter
  is lower-cased, and which texts are timestamps (`Metas.Rules`); the parsers' properties of a file
  extension (`Directories.Tables`); the zettel a transclusion may fetch, how they are parsed, and how
  the part of a zettel that is embedded is searched for (`Evaluators.Env`; what is found consists of
  parts of the zettel, `PickOk`); the predefined new identifiers (`ZidMapper.defined`).
- Locks are left out: every operation is one atomic step.

## What turned out otherwise than one may expect

- A comment in `zettel/id/digraph.go` says that the reverse topological sort may not terminate on a
  graph with a cycle. The code always terminates: `PeelExact` says which vertices it then returns.
- Index: a zettel that links to itself has no back link after it was indexed for the first time
  (`SelfLinkIff` gives the exact condition). A metadata key that is no longer submitted leaves its
  forward set behind, so that a later submission of the same reference is not shown
  (`DroppedKeyIsForgotten`; `InverseShownIff` and, for dead references, `DeadShownIff` give the exact
  conditions).
- Index: the numeric suffix test never finds an identifier by a suffix of zeros (`SuffixModulo`).
- Queue: without a limit on the load a zettel may wait for ever (`UnlimitedStarves`); with any limit
  it is served in time (`ServedInTime`). A reload that brings no zettel forgets all that wait
  (`ReloadKeepsRooms`).
- Context: with the directive for full contexts the results need not come in the order of their costs
  (`FullDescends`), as each further common tag takes a share off the sum. They do so iff no result
  offers the very next one below its own cost (`AscendingIff`). A search that is not ended by the count
  finds the cheapest ways, in the order of their costs, iff no zettel is reached cheaper by way of a
  costlier one (`BestFirstIff`): every way can be replaced by one that costs no more and never gets
  cheaper by going on (`Rises`). Only references by two common tags or more can be against this
  (`RisesIff`). It is enough that at the bound none of them lowers the cost, which is one price for every
  two such zettel (`BoundSuffices`).
- Index: the code means to keep the number of the box with the copy of the metadata, but never does, as
  the pairs it walks through leave out all computed keys (`CopiedExact`).
- Identifier mapping: the counter for the manual runs into a predefined identifier when the manual has
  1221 zettel (`ManualOverflow`; `ManualCollision` gives the exact condition for a single step), and
  reading a mapping does not set that counter (`ManualGivenTwice`). The text of a fresh mapping cannot
  be read back without an error (`FreshUnreadable`; `TextRoundTrip` gives the exact condition). A fetch
  without a predefined zettel makes it lose its predefined identifier (`PredefinedForgotten`).
- Directory: a file may be known twice, as a useless one and as the metadata file. Deleting it then
  leaves it as the metadata file (`StaleMeta`, `StaleFile`; `DeleteExact` gives the exact condition for
  one event, `InStepIff` for a run). This never happens if there are no zettel files, and no file with an
  extension has the name of another one without its last extension (`ApartInStep`).
- Transclusion: the attributes of the first transclusion of a zettel decide how it is read
  everywhere (`TextExpanded`; `FirstAttributesDecide` is an example). Every transclusion shows what its
  own attributes ask for iff all transclusions of the same zettel ask for the same (`AsAskedIff`).
- Transclusion: the counter starts anew after each zettel that is read, so it never exceeds the number
  of transclusions in the expansion (`EvalFits`), and may stay far below. What limits a text is repetition:
  a zettel that is shown again is counted in full again (`RepeatCost`), so a text that repeats one ends in
  errors at a place that can be told beforehand (`RepeatedText`, `RepetitionEnds`).

## Model

| member | source | states |
|---|---|---|
| `Ids.ParseString` | zettel/id/id.go:64-86 | `Parse` and `String` are inverse: a text parses to an identifier iff it is valid and this is its 14-digit form |
| `Ids.ParseStringN` | zettel/id/id.go:185-207 | a text parses to a base-36 identifier iff it is valid and the text in capitals is its 4-digit form |
| `Ids.ToByteArray` | zettel/id/id.go:121-145 | the fixed-width conversion by repeated division fills the array with the 14 decimal digits |
| `Ids.PrefixRange` | box/manager/mapstore/mapstore.go:163-189 | on valid identifiers the numeric range test holds iff the 14 digits start with the prefix, for every prefix |
| `Ids.SuffixModulo` | box/manager/mapstore/mapstore.go:194-217 | on valid identifiers the modulo test holds iff the 14 digits end with the suffix and the suffix is not all zeros |
| `IdSets.InterExact` | zettel/id/set.go:123-150 | the two-pointer merge of ascending slices is ascending and has exactly the common elements |
| `IdSets.SubExact` | zettel/id/set.go:161-186 | the other merge is ascending and has exactly the elements of the first slice that are not in the second |
| `IdSets.IdSet.Find` | zettel/id/set.go:306-319 | binary search: the position of the element, or the one before which it belongs |
| `IdSets.IdSet.Contains` | zettel/id/set.go:98 | tells whether the element is in the set; a nil set has none |
| `IdSets.IdSet.Add` | zettel/id/set.go:89-95 | the slice stays ascending and its set of elements grows by the new one; a nil set becomes a new one |
| `IdSets.IdSet.AddSlice` | zettel/id/set.go:104-113 | all elements of a slice in any order, with repetitions, are added, also to a nil set |
| `IdSets.IdSet.Remove` | zettel/id/set.go:230-242 | the element is taken out, also of a nil set; the result is nil iff nothing is left |
| `IdSets.IdSet.Pop` | zettel/id/set.go:267-276 | takes the greatest element, iff there is any; a nil set has none |
| `IdSets.IdSet.Intersect` | zettel/id/set.go:132-149 | compaction in place leaves the intersection, as an ascending slice, also with the same set or one that shares the slice |
| `IdSets.IdSet.IntersectOrSet` | zettel/id/set.go:123-150 | the intersection; a nil set on either side yields the other argument |
| `IdSets.IdSet.ISubstract` | zettel/id/set.go:162-186 | compaction in place leaves the difference of the sets, also with nil sets, with the same set, or with one that shares the slice |
| `IdSets.IdSet.IUnion` | zettel/id/set.go:153-159 | the union of the sets, also with nil sets, with the same set, or with one that shares the slice |
| `IdSets.IdSet.Diff` | zettel/id/set.go:195-227 | two new sets: what must be added to and removed from a set to get the other one; a nil set has no elements, and nil stands for an empty result |
| `IdSets.IdSet.Equal` | zettel/id/set.go:245-253 | equality of the slices is equality of the sets; a nil set only equals nil |
| `IdSets.IdSet.Clone` | zettel/id/set.go:81-86 | a new set with the same elements, or nil if there are none |
| `Digraphs.Digraph.RemoveVertex` | zettel/id/digraph.go:36-43 | the vertex and every edge to it are gone, nothing else |
| `Digraphs.Digraph.Originators` | zettel/id/digraph.go:123-132 | exactly the vertices no edge leads to |
| `Digraphs.Digraph.Terminators` | zettel/id/digraph.go:136-143 | exactly the vertices without an outgoing edge |
| `Digraphs.Digraph.TransitiveClosure` | zettel/id/digraph.go:146-168 | terminates with the subgraph induced by the vertex and everything reachable from it |
| `Digraphs.Digraph.ReachableVertices` | zettel/id/digraph.go:171-191 | terminates with exactly the vertices reachable over one or more edges |
| `Digraphs.Digraph.IsDAG` | zettel/id/digraph.go:195-202 | true iff there is no cycle; otherwise a vertex on a cycle is named |
| `Digraphs.Digraph.Reverse` | zettel/id/digraph.go:205-216 | the transposed graph, in a new object |
| `Digraphs.TransposeReaches` | zettel/id/digraph.go:205-216 | reversal turns every way round, for all pairs of vertices |
| `Digraphs.TransposeTwice` | zettel/id/digraph.go:205-216 | reversing twice gives the graph back iff all its edges end in vertices |
| `Digraphs.Digraph.SortReverse` | zettel/id/digraph.go:221-239 | on every graph it terminates with the vertices peeled off sink by sink, and leaves the graph as it was |
| `Digraphs.PeelExact` | zettel/id/digraph.go:218-239 | a vertex is sorted iff no way from it reaches a cycle or leaves the graph |
| `Digraphs.PeelNoDup` | zettel/id/digraph.go:221-239 | no vertex is sorted twice |
| `Digraphs.PeelTopological` | zettel/id/digraph.go:221-239 | the target of every edge comes before its source |
| `Digraphs.PeelDag` | zettel/id/digraph.go:221-239 | if all edges end in vertices: all vertices are sorted iff there is no cycle |
| `ContextSearch.ContextSpec.Execute` | query/context.go:68-99 | the results are those of a greedy search, full contexts included: each is one of the cheapest zettel that wait, until nothing waits or the count is used up (`Greedy`). If no zettel is reached cheaper by way of a costlier one (`Rises`), and, unless the count ends the search, only then, they are distinct, in ascending cost, each with exactly the least cost of all ways to it, and no way leads to a missing zettel unless the count is used up by results that are no farther away (`BestFirst`). One case is left open: a start zettel with other metadata in the box that is offered at exactly its own cost (`Clear`). There are at most as many results as allowed, 200 if nothing is said, and a bound of 17 holds if none is given. Every result but a start is referred to by an earlier one, under a key that the direction of the context lets follow, or in a full context by a common tag (`Refers`) |
| `ContextSearch.ContextTask.NewQueue` | query/context.go:131-149 | at the start just the start zettel are queued, at cost 1, and the invariant of the search holds |
| `ContextSearch.ContextTask.AddMeta` | query/context.go:199-208 | what is queued: within the limit, affordable or offered by the first zettel, and not delivered before |
| `ContextSearch.ContextTask.AddID` | query/context.go:191-197 | a reference is offered iff its text is an identifier and its zettel can be read |
| `ContextSearch.ContextTask.AddIDSet` | query/context.go:210-221 | every reference of a list is offered, at a price that grows with the length of the list |
| `ContextSearch.ContextTask.AddPair` | query/context.go:151-177 | what a key-value pair offers: the references that `PairExact` characterises |
| `ContextSearch.PairExact` | query/context.go:151-221 | forwards, just the key `forward` and the identifier keys without an inverse are followed; backwards, just `backward` and the three with an inverse; `back` never. A pair leads to just the zettel it names, singly or in a list, and this is what it costs |
| `ContextSearch.ArcsExact` | query/context.go:151-244 | all references of a zettel: those of its pairs, and in a full context those to each zettel with a common tag, at the price of the rarest such tag less a share for each further one |
| `ContextSearch.ContextTask.UpdateTagData` | query/context.go:246-266 | the zettel with a tag; a tag is selected only once, and what is remembered stays right |
| `ContextSearch.ContextTask.TagPrice` | query/context.go:230-242 | the rarest common tag decides what is added to the cost, and each common tag but the first divides the sum by 1.1 |
| `ContextSearch.ContextTask.AddTags` | query/context.go:223-244 | every zettel that has one of the tags is offered once, at this price |
| `ContextSearch.ContextTask.Next` | query/context.go:273-288 | the cheapest queued zettel not delivered before; none iff the limit is reached or all queued ones were delivered |
| `ContextSearch.ContextTask.Round` | query/context.go:79-97 | one turn of the loop keeps the invariant of greedy search, with and without tags, and its end gives the promise |
| `CheapestWays.FrontierLemma` | query/context.go:199-208 | every way to an undelivered zettel along which the cost never falls passes something that waits and costs no more |
| `CheapestWays.GreedyIsBestFirst` | query/context.go:68-99 | where no zettel is reached cheaper by way of a costlier one, whatever a greedy search delivers are the nearest zettel at their least distances |
| `CheapestWays.BestFirstIff` | query/context.go:68-99 | for a search that the count does not end: it does so iff no zettel is reached cheaper by way of a costlier one |
| `CheapestWays.TraceOf` | query/context.go:79-97 | where results ascend, the offers that led to a result are a way of its cost, along which the cost never falls |
| `CheapestWays.BeyondBound` | query/context.go:199-208 | what the first result refers to is delivered at that price at most, whatever the bound, unless the count is used up by what costs no more; and only such results are beyond the bound |
| `BestFirstSearch.RoundDone` | query/context.go:79-97 | queueing the offers of the new result restores the invariant: the queue holds just what waits |
| `CheapestWays.AllWays` | query/context.go:199-208 | of ways whose steps never lower the cost, none of any kind is cheaper than those that the promise speaks of (ways that meet no zettel twice and stay within the bound, but for direct references of the first result) |
| `ContextSearch.NoCheaperWay` | query/context.go:199-244 | these are all ways of a context that is not full; in a full one all that leave their zettel with each step, if at the bound no common tags lower the cost |
| `ContextSearch.PlainNet` | query/context.go:151-221 | in a context that is not full, every reference adds at least 1 to the cost |
| `CheapestWays.UpwardIff` | query/context.go:223-242 | a reference that takes a share off the sum lowers no cost up to the bound, and none beyond to one within, iff it does not lower the bound; one to a start zettel stays above its cost at all costs iff it does so at cost 1 |
| `CheapestWays.BoundRises` | query/context.go:199-242 | so one price for each reference is enough for a search of cheapest ways |
| `ContextSearch.RisesIff` | query/context.go:223-244 | no zettel is reached cheaper by way of a costlier one iff the context is not full, or no way that ends with a reference by two common tags or more is cheaper than all those that never fall |
| `ContextSearch.BoundSuffices` | query/context.go:223-244 | this holds if at the bound no reference between two zettel with two common tags or more lowers the cost |
| `BestFirstSearch.AscendingIff` | query/context.go:79-97 | for every greedy search, full or not: the results come in the order of their costs iff none offers the very next one below its own cost |
| `ContextSearch.FullDescends` | query/context.go:230-242 | a chain of three zettel, the last two with seven common tags: the third result costs less than the second one |
| `ContextSearch.ChainExists` | query/context.go:230-242 | there are such zettel, for any tags |
| `CheapestWays.TiesIrrelevant` | query/context.go:105-118 | whichever of equally cheap items the heap yields, there are as many results within the bound, at the same costs |
| `WordSets.WordSetDiff` | box/manager/store/wordset.go:41-63 | exactly the words to add to and to remove from the old list |
| `WordSets.Words` | box/manager/store/wordset.go:28-37 | each word of the set once |
| `WordSets.UpdateStrings` | box/manager/mapstore/mapstore.go:430-448 | postings change exactly for the words gained and lost, and no posting set is left empty |
| `MapStores.MapStore.UpdateReferences` | box/manager/mapstore/mapstore.go:284-325 | the whole new state after indexing a zettel, entry by entry, with the copy of its metadata; what is to be checked again (`RunPending` says which zettel these are in a run) are its dead referrers, and the new and the dropped targets that are not indexed |
| `MapSteps.RunPending` | box/manager/mapstore/mapstore.go:369-427 | after every run, besides those that mentioned it as dead: just the zettel without a current submission that the new one starts or ceases to link to, or refers to under a key for the first time, are to be checked again |
| `MapStores.MapStore.MakeMeta` | box/manager/mapstore/mapstore.go:342-356 | the copy of the metadata that is kept |
| `MapStores.CopiedExact` | box/manager/mapstore/mapstore.go:342-356 | just the pairs that are not computed are copied, so the test for the number of the box never succeeds |
| `MapStores.MapStore.GetMeta` | box/manager/mapstore/mapstore.go:83-91 | the copy is returned, and there is none for a zettel that was only referred to |
| `MapStores.MapStore.DeleteZettel` | box/manager/mapstore/mapstore.go:466-482 | the whole new state after a deletion; in a consistent index, exactly the other zettel that linked to the deleted one are returned for checking |
| `MapSteps.ReferrersExact` | box/manager/mapstore/mapstore.go:497-513 | in a consistent index the back links of a zettel, but for itself, are exactly the zettel that link to it |
| `MapIndexes.UpdateConsistent` | box/manager/mapstore/mapstore.go:284-325 | indexing keeps words posted, links mirrored and entries backed |
| `MapIndexes.DeleteConsistent` | box/manager/mapstore/mapstore.go:466-482 | so does deletion |
| `MapIndexes.RunConsistent` | box/manager/mapstore/mapstore.go:284-482 | after every run: a zettel is posted under a word or URL iff it has it, no posting is empty, links and back links of different zettel mirror each other, links do not dangle, dead and inverse references are backed by their source |
| `MapIndexes.RunRecords` | box/manager/mapstore/mapstore.go:284-552 | after every run the words, URLs, dead references and the copy of the metadata of every zettel are those of its last submission, if it was not deleted since; its links are those of this submission to zettel that were not deleted since |
| `MapIndexes.RunFinds` | box/manager/mapstore/mapstore.go:284-552 | so a word or URL finds just the zettel that were last submitted with it, back links of other zettel are just those of the last submissions, and no dead reference is recorded that was not submitted last |
| `MapIndexes.RunInverseSound` | box/manager/mapstore/mapstore.go:393-428 | whatever a zettel shows as inverse reference was in the last submission of its source |
| `MapIndexes.DeleteLeavesNoTrace` | box/manager/mapstore/mapstore.go:466-552 | after a deletion nothing names the zettel but stale forward sets of metadata keys, and those are as before |
| `MapIndexes.InverseShownIff` | box/manager/mapstore/mapstore.go:393-428 | a submitted inverse reference shows up iff it is new or was shown before; one to the zettel itself only if the zettel had an entry |
| `MapIndexes.DeadShownIff` | box/manager/mapstore/mapstore.go:356-367 | a submitted dead reference is recorded iff it is new, or was recorded before and is not to the zettel itself |
| `MapIndexes.SelfLinkIff` | box/manager/mapstore/mapstore.go:312-314 | exactly when a link to itself has a back link |
| `MapIndexes.StaleForward` | box/manager/mapstore/mapstore.go:396-401 | a key that is no longer submitted leaves its forward set behind, but no back reference |
| `MapIndexes.DroppedKeyIsForgotten` | box/manager/mapstore/mapstore.go:393-428 | whatever was before: submitted, submitted without the key, and submitted again, a reference is not shown |
| `MapStores.MapStore.SelectWithPred` | box/manager/mapstore/mapstore.go:238-254 | equals a plain scan of all zettel, for every predicate on words |
| `MapStores.MapStore.SearchPrefix` | box/manager/mapstore/mapstore.go:163-189 | in a consistent index just the zettel with a word or URL of the prefix, and those that are, link to, or are shown as a reference by, an indexed zettel whose identifier has the prefix |
| `MapStores.MapStore.SearchSuffix` | box/manager/mapstore/mapstore.go:194-217 | the same for suffixes, but for suffixes of zeros |
| `MapStores.RelatedExact` | box/manager/mapstore/mapstore.go:256-264 | in a consistent index, a zettel and its own back links are just the zettel that are it, link to it, or are shown by it as a reference by a metadata key |
| `MapStores.RunRefersTo` | box/manager/mapstore/mapstore.go:256-264 | after every run, these are just those whose last submission has a link that still lives, or has the zettel under a metadata key and is shown there |
| `Anterooms.AnteroomQueue.EnqueueZettel` | box/manager/anteroom.go:46-74 | the linked list after an enqueue: nothing for unwanted or waiting zettel, else the last room or a new one |
| `Anterooms.AnteroomQueue.Dequeue` | box/manager/anteroom.go:118-136 | the answer and the list after a dequeue, for all kinds of first rooms |
| `Anterooms.AnteroomQueue.Reset` | box/manager/anteroom.go:84-89 | one reload room without a set is left |
| `Anterooms.AnteroomQueue.Reload` | box/manager/anteroom.go:91-105 | reload rooms are replaced by one with the given zettel; without zettel the list is emptied |
| `Anterooms.AnteroomQueue.DeleteReloadedRooms` | box/manager/anteroom.go:107-116 | the reload rooms at the front are dropped |
| `Anterooms.RunKeepsRooms` | box/manager/anteroom.go:46-143 | in every run a reload room is only ever the first, no other room is empty or over its load, and no zettel waits in two rooms |
| `Anterooms.EnqueueRank` | box/manager/anteroom.go:57-74 | no newcomer changes the rank of a waiting zettel, if there is a limit |
| `Anterooms.DequeueRank` | box/manager/anteroom.go:118-136 | every dequeue serves a waiting zettel or lowers its rank by one |
| `Anterooms.ServedInTime` | box/manager/anteroom.go:46-143 | with a limit, a waiting zettel is among as many next answers as its rank says, whatever else arrives |
| `Anterooms.UnlimitedStarves` | box/manager/anteroom.go:66-70 | without a limit there are runs of any length in which a zettel is not served |
| `Anterooms.RunConserves` | box/manager/anteroom.go:46-136 | in every run of enqueues and dequeues: what waited or was enqueued is waiting or has been served, and nothing else |
| `Anterooms.EnqueueKeepsRooms` | box/manager/anteroom.go:46-74 | an enqueue adds just its zettel to those that wait |
| `Anterooms.DequeueKeepsRooms` | box/manager/anteroom.go:118-143 | a dequeue takes just the answered zettel from those that wait |
| `Anterooms.ReloadKeepsRooms` | box/manager/anteroom.go:91-105 | a reload keeps all that wait iff it brings any zettel |
| `Anterooms.ReloadServes` | box/manager/anteroom.go:91-143 | after a reload with any zettel, in every run of enqueues and dequeues: the first answers are those of `Announced`, and then answers and rooms are those of the run without the reload |
| `Anterooms.AnnouncedExact` | box/manager/anteroom.go:118-136 | these answers tell of each of its zettel exactly once, marked as a reload, and of no other |
| `Anterooms.ResetServes` | box/manager/anteroom.go:84-89 | after a reset the first answer asks for a reload, whatever was enqueued, and then all goes on as from an empty queue |
| `ZidMappers.ZidMapper.constructor` | box/manager/zidmapper.go:50-124 | the two maps start as the predefined table and its inverse |
| `ZidMappers.ZidMapper.GetZidN` | box/manager/zidmapper.go:164-194 | the known new identifier, or the next one of the manual or of the normal counter |
| `ZidMappers.ZidMapper.DeleteO` | box/manager/zidmapper.go:196-209 | predefined identifiers stay; others are unmapped, and the last normal one may be given again |
| `ZidMappers.DeletedExact` | box/manager/zidmapper.go:196-209 | a deletion takes just the pair of its identifier out of both maps, and never a predefined one |
| `ZidMappers.DeleteUndoes` | box/manager/zidmapper.go:164-209 | deleting what was given last gives the very mapping from before, counters and all, iff it was not given for the manual |
| `ZidMappers.FetchOrder` | box/manager/zidmapper.go:240-260 | a fetch gives new identifiers in the order of the old ones |
| `ZidMappers.ZidMapper.FetchAsBytes` | box/manager/zidmapper.go:240-260 | from every state: exactly the fetched identifiers are mapped afterwards, and the result is their text |
| `ZidMappers.ZidMapper.AsBytes` | box/manager/zidmapper.go:218-236 | the lines of the mapping in the order of old identifiers |
| `ZidMappers.ZidMapper.ParseAndUpdate` | box/manager/zidmapper.go:262-302 | reads line by line, and reports whether there was any error |
| `ZidMappers.InsertExact` | box/manager/zidmapper.go:183-184 | a new pair keeps the maps inverse iff its new identifier is not in use |
| `ZidMappers.AllocateOk` | box/manager/zidmapper.go:164-194 | until the manual counter reaches 00ZW the next identifier is not in use, and the maps stay inverse |
| `ZidMappers.ManualCollision` | box/manager/zidmapper.go:176-187 | an identifier for the manual breaks the mapping iff the counter stands at one in use |
| `ZidMappers.ManualOverflow` | box/manager/zidmapper.go:176-187 | from a fresh mapper: the 1221st zettel of the manual gets the predefined 00ZW, and the maps are inverse no more |
| `ZidMappers.RunOk` | box/manager/zidmapper.go:164-260 | in every run the maps stay inverse to each other and all identifiers accounted for, until the manual counter reaches 00ZW |
| `ZidMappers.TextRoundTrip` | box/manager/zidmapper.go:218-302 | a table that is written is read into any mapping without an error iff all its identifiers are valid and none contradicts the mapping; then it is added, and the normal counter stands above all that was added, no higher than needed |
| `ZidMappers.ReadWritten` | box/manager/zidmapper.go:262-302 | with or without errors: just the valid pairs whose old identifier is not mapped yet are added, and both maps change together |
| `ZidMappers.ReadInverseIff` | box/manager/zidmapper.go:262-302 | after a table was read without an error, the maps are inverse iff mapping and table together use no new identifier twice |
| `ZidMappers.FreshUnreadable` | box/manager/zidmapper.go:50-53 | the text of a fresh mapping is never read without an error, as the invalid identifier is predefined |
| `ZidMappers.PredefinedForgotten` | box/manager/zidmapper.go:240-260 | a fetch without a predefined zettel forgets its identifier; it then gets a normal one, which a fresh mapping rejects |
| `ZidMappers.ManualGivenTwice` | box/manager/zidmapper.go:291-299 | after reading a mapping with an identifier of the manual, this identifier may be given again |
| `Kernels.TableRanked` | kernel/impl/impl.go:112-119 | the dependencies of the services have no cycle |
| `Kernels.ReverseDependency` | kernel/impl/impl.go:120-125 | the table for stopping has the edges of the one for starting, turned round |
| `Kernels.Kernel.CreateKernel` | kernel/impl/impl.go:86-127 | the kernel starts in a consistent state, with only the kernel service started |
| `Kernels.Kernel.SortDependency` | kernel/impl/impl.go:462-487 | without duplicates, each service after what it needs, and just the services that are needed along services in the other state |
| `Kernels.PruneStarted` | kernel/impl/impl.go:471-473 | in a consistent state, not looking beyond a started service skips nothing that has to be started |
| `Kernels.Kernel.DoStartService` | kernel/impl/impl.go:419-427 | keeps all dependencies of started services started, even if a start fails; starts just the service and what it depends on, each after its own dependencies: all of it on success, those before the failing one otherwise |
| `Kernels.Kernel.DoStopService` | kernel/impl/impl.go:455-460 | keeps the invariant and stops just the service and what depends on it |
| `Kernels.Kernel.DoRestartService` | kernel/impl/impl.go:434-447 | keeps the invariant; on success the state is the one before; otherwise, of the services that were stopped, just those after the failing one in the stop list are started again |
| `Directories.ExtOrder` | box/notify/directory.go:541-575 | the preference of extensions is a strict total order, for all properties of parsers |
| `Directories.ExtRanks` | box/notify/directory_test.go:52-82 | the registered syntaxes and four other extensions, in the order the test lists them: each is better than all that follow |
| `Directories.NameOrder` | box/notify/directory.go:522-527 | the preference of names is a strict order |
| `Directories.DirEntry.UpdateEntry` | box/notify/directory.go:420-443 | the mutual recursion terminates, no slice of a name is out of range, and the fields end up as specified by `Updated` |
| `Directories.DirEntry.ReplayUpdateUselessFiles` | box/notify/directory.go:397-418 | all useless names are tried again in their order |
| `Directories.DirEntry.UpdateEntryMeta` | box/notify/directory.go:449-463 | the better metadata name stays, the other becomes useless; just the newly useless name is reported |
| `Directories.DirEntry.UpdateEntryContent` | box/notify/directory.go:465-503 | the better content name stays, and a zettel file takes over from a metadata file; just the newly useless names are reported |
| `Directories.DirEntry.OnDeleteFileEvent` | box/notify/directory.go:357-387 | the fields after a deletion, and whether the entry is dropped |
| `Directories.UpdateConserves` | box/notify/directory.go:420-512 | after an update exactly the old names and the new one are known, for every name |
| `Directories.UpdateUnbeaten` | box/notify/directory.go:449-463 | an update never leaves a useless name without extension that is better than the metadata name in use |
| `Directories.DeleteExact` | box/notify/directory.go:357-387 | a deletion loses no other name, and forgets the deleted one iff it was not known twice |
| `DirectoryRuns.StepTracks` | box/notify/directory.go:337-387 | one event changes what is known about its own name only; that name is known afterwards iff it was updated, or was known twice |
| `DirectoryRuns.RunTracks` | box/notify/directory.go:337-512 | in every run all files of the directory are known, and no others unless a name was deleted that was known twice |
| `DirectoryRuns.InStepIff` | box/notify/directory.go:337-512 | what is known and what is in the directory agree after every event of a run iff no event deletes a name that is known twice |
| `DirectoryRuns.ApartInStep` | box/notify/directory.go:337-512 | they do if there are no zettel files, and no file with an extension has the name of another one without its last extension |
| `DirectoryRuns.StaleMeta` | box/notify/directory.go:369-374 | with a zettel file: four events after which the deleted metadata file is still known |
| `DirectoryRuns.StaleFile` | box/notify/directory.go:369-374 | with such names: five events after which a deleted file is still the metadata file |
| `Metas.AddNormal` | zettel/meta/parse.go:139-172 | a pair in normal form is stored as it is, for every type of key |
| `Metas.AddStaysNormal` | zettel/meta/parse.go:114-172 | whatever key and one-line value are added, the metadata stays in normal form |
| `ZettelFileIO.Meta.AddToMeta` | zettel/meta/parse.go:139-172 | the map of pairs after a key and a value were read |
| `ZettelFileIO.Meta.AddSet` | zettel/meta/parse.go:114-129 | the usable new elements and the usable old ones are the elements of the new value; nothing happens without a usable new one |
| `Metas.AddSetExact` | zettel/meta/parse.go:106-129 | with a usable new element, the elements of the stored value are just the usable new ones and the usable old ones; without one, and under other keys, nothing changes |
| `MetaLines.AllKeysHold` | zettel/meta/parse.go:114-172 | after any keys and values in any order, for each type: a set has just the usable elements of all values of its key, a word the last value, an identifier or a time the last valid one, all other types all texts with blanks between; and no other key is there (`KeyHolds`) |
| `MetaLines.ReadHolds` | zettel/meta/parse.go:27-172 | the same of the metadata that is read from any text |
| `MetaLines.HeaderRead` | zettel/meta/parse.go:27-172 | a header of keys in any case, values on several lines, and comments between them: all that is read is what the values of each key make of it, and the content after the empty line is left |
| `MetaLines.ElementsRead` | zettel/meta/parse.go:106-163 | of such a header: a tag or an identifier is in a set iff it is usable and in a line with this key, however often the key occurs |
| `MetaLines.TrimExact` | zettel/meta/meta.go:242-246 | trimming takes just the white space at both ends |
| `ZettelFileIO.Meta.Set` | zettel/meta/meta.go:242-246 | the trimmed value is stored, except under the key for the identifier |
| `ZettelFileIO.Input.ParseHeader` | zettel/meta/parse.go:61-84 | one key and its value with continuation lines are read and added |
| `ZettelFileIO.NewFromInput` | zettel/meta/parse.go:27-59 | terminates on every text, with the metadata and the rest as specified by `ReadMeta` |
| `ZettelFileIO.ParseMetaContentFile` | box/dirbox/service.go:346-354 | metadata and content of a file, whatever its text |
| `ZettelFileIO.ComputedPairs` | zettel/meta/meta.go:303-351 | the pairs of the first keys, then all others ordered by key |
| `ZettelFiles.AllKeysOnce` | zettel/meta/meta.go:324-351 | this order has every key once |
| `ZettelFiles.ComputedOrder` | zettel/meta/meta.go:303-351 | just the pairs of the metadata are listed: title, role, tags and syntax in this order, then the others in the order of their keys |
| `ZettelFileIO.WriteComputed` | zettel/meta/write.go:29-55 | all pairs but the properties are written; when the writer fails, just a prefix was written and its length is reported |
| `ZettelFileIO.WriteFileZid` | box/dirbox/service.go:376-385 | the line with the identifier is written, under the same contract |
| `ZettelFileIO.WriteZettelFile` | box/dirbox/service.go:239-280 | header, separators and content are written, under the same contract |
| `ZettelFileIO.WriteThenRead` | box/dirbox/service.go:239-354 | a file that was written without an error is read with the same content, separator style and pairs |
| `ZettelFiles.ReadPair` | zettel/meta/parse.go:61-84 | a written pair is read as this pair, and nothing beyond its line is touched |
| `ZettelFiles.RoundTrip` | box/dirbox/service.go:259-280 | for all metadata in normal form and all contents, with and without YAML separators: reading what was written gives the pairs that are not properties, and the very content |
| `ZettelFiles.MetaFileRoundTrip` | box/dirbox/service.go:224-237 | the same for a file with metadata only |
| `ZettelFiles.ReadMetaNormal` | zettel/meta/parse.go:27-84 | whatever text is read, its metadata is in normal form |
| `ZettelFiles.RewriteStable` | box/dirbox/service.go:239-354 | any text that is read, written and read again gives the same content and the same pairs, but for properties |
| `Evaluators.Evaluator.VisitBlockSlice` | evaluator/evaluator.go:145-156 | the loop that splices into the list it walks terminates for every store and yields the concatenation of what its blocks evaluate to; the loop over inline elements (lines 326-339) is the same |
| `Evaluators.Evaluator.VisitBlock` | evaluator/evaluator.go:189-211 | what one block or inline element is replaced with: embedded text (lines 510-524) and the descriptions of images (lines 497-508) are evaluated with the same counter and memory |
| `Evaluators.TranscludeNode` | evaluator/evaluator.go:158-169 | the block is replaced by a list, by one block, or by nothing, and the index moves accordingly |
| `Evaluators.ReplaceWithBlockNodes` | evaluator/evaluator.go:171-187 | the list with one block replaced by others |
| `Evaluators.Evaluator.EvalTransclusionNode` | evaluator/evaluator.go:225-288 | what a reference is replaced with, in all its states, and how the counter and the memory change; for each kind of reference without a zettel to be read, what stands there and whether it counts (`Stands`) |
| `Evaluators.Evaluator.EvalEmbedRefNode` | evaluator/evaluator.go:405-487 | the same for a reference embedded in a paragraph, which shares counter and memory, but shows a part of the zettel only |
| `Evaluators.Evaluator.EvaluateZettel` | evaluator/evaluator.go:276-281 | a zettel met for the first time is marked, read, evaluated and remembered, and no part that was picked before becomes wrong |
| `Evaluators.Evaluator.PickPart` | evaluator/evaluator.go:468-473 | the memory of parts always yields the part that would be found now |
| `Evaluators.Transcluded` | evaluator/evaluator.go:145-288 | however zettel refer to each other: nothing is left to transclude or to embed, no zettel is parsed twice, and no marker is left |
| `Evaluators.EvalBlocksKept` | evaluator/evaluator.go:261-287 | what is remembered is never changed by later evaluations |
| `Repetitions.RepeatCost` | evaluator/evaluator.go:255-288 | a zettel that was read before shows the same blocks, or a part of them, and raises the counter by 1 and by all that was counted when it was read, if anything of it is shown; or the limit was passed, and an error is shown |
| `Repetitions.RepeatedText` | evaluator/evaluator.go:225-314 | in a text that repeats a transclusion or an embedded reference, the second copy is shown if 1 is within the limit, and each further one if so is 1 and this price for each copy between; else an error stands for it |
| `Repetitions.RepetitionEnds` | evaluator/evaluator.go:304-314 | once the copies before cost more than the limit, all that follow are errors |
| `Repetitions.CountsUnits` | evaluator/evaluator.go:225-288 | without zettel to be read, the counter rises by 1 for each text that stands inside, each wrong reference and each query, and by nothing else |
| `Expansions.EvalReads` | evaluator/evaluator.go:261-280 | unless the limit is reached, just the zettel are read that a plain walk through the texts meets |
| `Expansions.TextExpanded` | evaluator/evaluator.go:145-288 | every text without cycles: the result is the plain expansion of all transclusions and embedded references, each zettel read as the first reference to it asks for, unless the limit was reached |
| `Expansions.EvalExpands` | evaluator/evaluator.go:145-288 | the same in any state met during an evaluation; it keeps the remembered zettel faithful |
| `Expansions.TextFits` | evaluator/evaluator.go:274-314 | if the expansion has no more transclusions than allowed, counted as often as they occur, the limit is not reached, and the result is the expansion |
| `Expansions.RecursionShownIff` | evaluator/evaluator.go:261-280 | unless the limit is reached, an error about recursion is shown, or remembered with a zettel of which a part is shown, iff the references that are met have a cycle |
| `Expansions.AsAskedIff` | evaluator/evaluator.go:255-287 | every reference that is met shows what its own attributes ask for iff all those to the same zettel ask for the same |
| `Expansions.TextAsAsked` | evaluator/evaluator.go:145-288 | then the result is the expansion in which every reference is read with its own attributes, unless the limit was reached |
| `Expansions.FirstAttributesDecide` | evaluator/evaluator.go:261-287 | an example: two transclusions with different attributes both show what the first one asked for |
| `Literals.WriteEscaped` | encoder/zmkenc/zmkenc.go:529-539 | the code character and the backslash are escaped, all else is copied |
| `Literals.WriteLiteral` | encoder/zmkenc/zmkenc.go:499-504 | the escaped content between doubled code characters |
| `Literals.Parser.ParseText` | parser/zettelmark/inline.go:94-110 | one escaped character, or text up to the next special character |
| `Literals.Parser.ParseBackslashRest` | parser/zettelmark/inline.go:124-136 | what an escaped character stands for, also at the end of a line or of the text |
| `Literals.ReadBackslash` | parser/zettelmark/inline.go:124-136 | in literal text, a backslash before any character gives the character, before a blank one that does not break, and before the end of a line the backslash itself; one at the end of the text leaves no literal |
| `Literals.PlainStep` | parser/zettelmark/inline.go:94-122 | every character but the backslash and the one that encloses the literal is read as itself |
| `Literals.Parser.ParseLiteral` | parser/zettelmark/inline.go:456-486 | the content up to the doubled character, or none |
| `Literals.LiteralRoundTrip` | encoder/zmkenc/zmkenc.go:471-504 | for every content and each of the four code characters: what is written is read as it was, and nothing after it is touched |
| `FontSizeLists.CalcFontSizes` | evaluator/list.go:301-350 | every access to the six sizes is in range; the result is `FontSizes` |
| `FontSizeLists.SizesInRange` | evaluator/list.go:330-348 | while there are counts left the size is below six, and from count to count it stays or grows by one |
| `FontSizeLists.FontSizesKeys` | evaluator/list.go:319-349 | just the counts that occur get a size |
| `FontSizeLists.FontSizesOrdered` | evaluator/list.go:301-350 | the order of sizes is the order of counts, strictly so for six different counts or fewer |
| `FontSizeLists.SameSizeIff` | evaluator/list.go:330-348 | a count gets the size of the one with which a size begins iff the occurrences of those between, and of that one, are fewer than the budget of the size |
| `FontSizeLists.BudgetIsShare` | evaluator/list.go:352 | the budget is as near as a whole number can be to an equal share of what is still to come |
| `FontSizeLists.FewCentred` | evaluator/list.go:320-328 | six different counts or fewer have sizes next to each other, with as much room above as below, or one more |
| `Draws.Canvas.NextPoints` | parser/draw/canvas.go:212-293 | the points that make progress, in their order |
| `Draws.NextExact` | parser/draw/canvas.go:212-293 | exactly the unvisited points of the grid a path may go on to |
| `Draws.Canvas.Unvisit` | parser/draw/canvas.go:346-352 | only called for visited points, so it does not panic; clears just this point |
| `Draws.Canvas.ScanPath` | parser/draw/canvas.go:162-206 | terminates on every grid; a lone start is given up, otherwise there is an object that starts with the path given, all objects are proper paths, they cover just what was newly visited, and everything that continues it has been visited |
| `Draws.Canvas.FindPaths` | parser/draw/canvas.go:102-129 | the visited points are those of the objects found, all that continues them is among them, and a start that is on no object has no way to go but into one |
| `Draws.PathWalkable` | parser/draw/object.go:139-145 | the objects found meet what the search for corners needs, so it does not panic |
| `Draws.PointsToCorners` | parser/draw/object.go:139-215 | the corners and whether the path is closed |
| `Draws.CornersRoundTrip` | parser/draw/object.go:136-215 | walking straight from corner to corner, and for a closed path back to the first, gives back all points of the path |
| `Draws.CornersBend` | parser/draw/object.go:139-215 | the corners are the first point, just the points at which the path bends, each counted once, and the last point of an open path; so no point on a straight stretch is one |
| `Draws.CornersDetermine` | parser/draw/object.go:136-215 | paths with the same corners, both closed or both open, are the same |

## Left out

- Web adapters, user interface, HTTP server, authorisation, command line, logging, statistics and dumps.
- File and archive access, channels, timers, goroutines: directory and queue operations are atomic steps.
- ContextSearch.ContextSpec.Execute: start metadata of the same zettel are taken to be equal, and metadata that is read or selected by a tag to be that of the zettel asked for. The heap is a bag that yields any cheapest item.
- MapStores.MapStore.UpdateReferences: does not model the interning of strings. An entry is a value in the map; sharing of the pointer to it is modelled by reading and writing the value.
- Index: searches for equal words and for words that contain a text, which differ from those modelled by their predicate only, and the enrichment of metadata.
- IdSets.IdSet.AddSlice: an argument that is the array of the set itself is taken to be ascending, as it is in a union.
- IdSets.IdSet.Add: does not model the growth policy of slices.
- Anterooms.AnteroomQueue.Reload: does not model that the caller's set is shared with the queue, which takes zettel out of it.
- ZidMappers.ZidMapper.constructor: does not list the predefined table. Any table will do whose new identifiers differ and lie below 0020 or from 00ZW to 0100.
- ZidMappers.RunOk: does not model that the counter for normal identifiers may exceed the four digits; new identifiers are unbounded there.
- Kernels.Kernel.DoStartService: does not model the configuration that a service takes over when it starts.
- DirectoryRuns.RunTracks: does not model the map from identifiers to entries; a run consists of the events for the files of one zettel. Messages about useless files are left out, but not the names they report.
- Directories.UpdateUnbeaten: does not claim the same for content files. A metadata file with an extension may become useless without being compared to a later content file.
- Metas.AddStaysNormal: does not model which texts are timestamps; the test is a parameter.
- ZettelFileIO.NewFromInput: the unseen cursor over the input is modelled as a position in a text; bytes that are no valid encoding count as characters of their own.
- Names and content of files chosen when a zettel is saved (`box/notify/entry.go`), and the clean-up of metadata after reading.
- Evaluators.Evaluator.VisitBlockSlice: a link is the inline elements in it; what becomes of its target is left out. Drawings and the result of a query are leaves.
- Evaluators.Evaluator.EvalEmbedRefNode: the text that stands with an embedded reference is left out. An image with a description is a tree (`Picture`, evaluated by `VisitBlock`); so a description that embeds its own image, which the code evaluates without an end, has no counterpart.
- Literals.Parser.ParseLiteral: does not model attributes after a literal, which are read next.
- Literals.LiteralRoundTrip: does not model attributes after a literal; they are read from what the lemma says is left.
- FontSizeLists.CalcFontSizes: divides and rounds integers, where the original uses floating-point numbers.
- Draws.Canvas.FindPaths: does not model hints for the rendering of points, nor the texts that are looked for afterwards. The grid is given as its cells row by row; splitting and padding of lines is left out.
- Query language, retrieval and its cache, full parser and encoders of Zettelmarkup, HTML, SZ and Markdown.
