# WordNet ontology layer, modelled in Dafny

This project models the ontology layer of a WordNet semantic-relatedness
library (`WordNet/WordNet.java`). The layer reads two record sets:

- synset records: an id and the nouns of that synonym set;
- hypernym records: a child id followed by the ids of its hypernyms.

From them it builds three things:

- a two-way term index: noun → list of synset ids (`str2intMap`) and
  synset id → list of nouns (`int2strMap`);
- the hypernym digraph, with one vertex per synset record and an edge
  child → hypernym for each hypernym field;
- a check that the digraph is a rooted DAG: no directed cycle, and exactly
  one vertex of outdegree 0.

On top of these it answers four queries: `nouns`, `isNoun`, `distance` and
`sap`. The last two go through a shortest-ancestral-path (SAP) engine.

Modules:

- `Results`: null arguments (`Option`), the two Java exceptions (`Error`),
  and call outcomes (`Result`).
- `Digraphs`: the `Digraph` class (adjacency lists, `AddEdge` appends), the
  `HasCycle` predicate over walks, the set of roots (vertices of outdegree 0)
  and `IsRootedDag`.
- `Hypernyms`: the edge-building rule as a function of the records
  (`AddRecord`, `HypernymGraph`) and an independent description of each
  vertex's hypernyms (`ParentsOf`).
- `TermIndex`: the synset records, the (id, noun) pairs they contain in
  scanning order, and the two maps as filters over those pairs (`IdsOf`,
  `NounsOf`, `Str2Int`, `Int2Str`).
- `Rendering`: how a synset is turned into text. Each noun is followed by a
  space, then the result is trimmed with the rule of `java.lang.String.trim`.
  `Join` and `Split` are a reference pair for that rendering.
  A token (`IsToken`) is a non-empty noun with no character at or below
  U+0020, so it holds no space and nothing that `trim` would cut.
- `Ontology`: the `WordNet` class (fields `int2strMap`, `str2intMap`,
  `wordNet`, `sap`), its construction, the validity check and the queries.
  `AncestralPaths` stands in for the SAP engine.

The Java constructor can throw, so it is modelled as the static method
`WordNet.Create`, which returns a `Result`. The Dafny constructor of `WordNet`
performs the index-building and edge-building loops (lines 34-81).
`Create` does the steps around them in the source's order: the null check,
then the build, then the rooted-DAG check, and only then the SAP engine.

Two collaborators are not part of the model and are passed in as parameters:

- The cycle detector is a function `Adjacency -> bool`. It is required to
  agree with `HasCycle` on every digraph.
- The SAP engine's two queries are total functions of the digraph and two
  id lists (`SapQueries`). This assumes that the engine always answers.
  The real engine may raise an error on an id that is not a vertex. Nothing
  else about the answers is assumed.

Where the specification and the code differ, the model follows the code:

- The term index keeps lists, not sets. A noun listed twice keeps both
  entries, in scanning order.
- Synset ids are not checked to be dense. The vertex count is the number of
  synset records, whatever their ids.
- An out-of-range hypernym id is not turned into an invalid-shape failure.
  It is left to `Digraph`, so here it is a precondition.
- When the ancestor is -1, `sap` returns null (`Ok(None)`), not a "none"
  rendering.
- If the ancestor id has no entry in `int2strMap`, the rendering loop
  iterates over null, which throws `NullPointerException`. The model returns
  that error.

## Model

| member | source | states |
|---|---|---|
| `Ontology.WordNet.Create` | WordNet/WordNet.java:30-88 | A missing file argument gives NullPointerException before anything is read. Otherwise construction succeeds exactly when the digraph the records describe is a rooted DAG, and fails with IllegalArgumentException when it is not. On success the object is valid and its SAP engine is built over the finished digraph. |
| `Ontology.WordNet.constructor` | WordNet/WordNet.java:34-81 | Afterwards both maps are the index of the records' (id, noun) pairs. The digraph has exactly one vertex per synset record, and its edges are the ones the hypernym records describe. No SAP engine exists yet. |
| `Ontology.WordNet.IndexNouns` | WordNet/WordNet.java:46-67 | Scanning one synset's nouns takes both maps from the index of the pairs scanned so far to the index of those pairs followed by this synset's pairs. |
| `Ontology.WordNet.AddHypernyms` | WordNet/WordNet.java:76-80 | A record with at least 2 fields appends `fields[1..]`, in order, to the list of `fields[0]`. Every other list is left unchanged. |
| `Ontology.WordNet.IsValidGraph` | WordNet/WordNet.java:91-106 | Returns true exactly when there is no directed cycle and exactly one vertex has outdegree 0. The loop keeps `rootNum` equal to the number of roots below `i`. |
| `Ontology.WordNet.Nouns` | WordNet/WordNet.java:109-111 | The result is exactly the set of nouns that occur in some synset record, so each noun appears once. |
| `Ontology.WordNet.IsNoun` | WordNet/WordNet.java:114-119 | A null word gives NullPointerException. Otherwise the result is whether some synset record lists the word. |
| `Ontology.WordNet.Distance` | WordNet/WordNet.java:122-132 | A null noun gives NullPointerException. Otherwise a noun absent from every record gives IllegalArgumentException. Otherwise the result is the engine's length for the two nouns' complete id lists, in scanning order. |
| `Ontology.WordNet.Sap` | WordNet/WordNet.java:136-156 | The same two checks in the same order, then the engine's ancestor for the complete id lists. Ancestor -1 gives null. An ancestor with no nouns gives NullPointerException. Otherwise the result is the trimmed space-accumulated rendering of the ancestor's nouns, in stored order. |
| `Ontology.RenderSynset` | WordNet/WordNet.java:150-154 | Accumulating each noun plus a space and then trimming gives `Trim(Spaced(words))`. For token nouns this equals the nouns joined by single spaces, and splitting it on spaces gives the nouns back. |
| `Ontology.AncestralPaths.constructor` | WordNet/WordNet.java:87 | The engine keeps the digraph it was built over. |
| `Digraphs.Digraph.constructor` | WordNet/WordNet.java:70 | A new digraph has the given number of vertices and no edges. |
| `Digraphs.Digraph.AddEdge` | WordNet/WordNet.java:79 | Appends the head to the tail's adjacency list. Every other list is unchanged. |
| `Digraphs.SingleRoot` | WordNet/WordNet.java:96-104 | A root count of 1 means there is one vertex of outdegree 0 and every vertex of outdegree 0 is that one. The converse also holds. |
| `Digraphs.SelfLoopIsCycle` | WordNet/WordNet.java:92-95 | An edge from a vertex to itself is a directed cycle, so the cycle detector rejects the digraph. |
| `Digraphs.RankedIsAcyclic` | WordNet/WordNet.java:92-95 | If some ranking of the vertices strictly decreases along every edge, the digraph has no directed cycle. |
| `Hypernyms.HypernymGraph` | WordNet/WordNet.java:70-81 | Reading the records in order yields a digraph with exactly `n` vertices, every edge of which ends at one of them. |
| `Hypernyms.HypernymGraphParents` | WordNet/WordNet.java:72-80 | The adjacency list of each vertex is the tails of the records that have at least 2 fields and that vertex as child, in record order. |
| `Hypernyms.ParentsOfMembers` | WordNet/WordNet.java:76-79 | `u -> w` is an edge exactly when some record with at least 2 fields has child `u` and lists `w` after it. |
| `Hypernyms.RootCandidate` | WordNet/WordNet.java:73-75 | A vertex has outdegree 0 exactly when no record with at least 2 fields names it as child. Records with fewer than 2 fields add nothing. |
| `Hypernyms.SelfHypernymRejected` | WordNet/WordNet.java:79-85 | A record that lists its own child as a hypernym makes the digraph fail the rooted-DAG check. |
| `Hypernyms.ExampleIsRootedDag` | WordNet/WordNet.java:91-106 | Three synsets, with 1 and 2 both hyponyms of 0, pass the rooted-DAG check. |
| `TermIndex.Str2IntSnoc` | WordNet/WordNet.java:47-55 | Scanning one more (id, noun) pair appends the id to that noun's list, or creates the list `[id]` for a new noun. Every other noun's list is unchanged. |
| `TermIndex.Int2StrSnoc` | WordNet/WordNet.java:57-65 | Scanning one more pair appends the noun to that id's list, or creates the list `[noun]` for a new id. Every other id's list is unchanged. |
| `TermIndex.IdsOfCount` | WordNet/WordNet.java:47-55 | Each id is listed under a noun once per time that (id, noun) pair is scanned. Nothing is deduplicated. |
| `TermIndex.NounsOfCount` | WordNet/WordNet.java:57-65 | Each noun is listed under an id once per time that (id, noun) pair is scanned. |
| `TermIndex.IndexInverse` | WordNet/WordNet.java:46-67 | The two maps are inverse views of the same pairs. `id` is in `str2intMap[w]` exactly when `w` is in `int2strMap[id]`, and the two occur equally often. |
| `TermIndex.IdsOfAppend` | WordNet/WordNet.java:47-55 | A noun's id list over two runs of pairs is the first run's ids followed by the second's. Lists are only appended, in scanning order. |
| `TermIndex.NounsOfAppend` | WordNet/WordNet.java:57-65 | An id's noun list over two runs of pairs is the first run's nouns followed by the second's. |
| `TermIndex.PairsMembers` | WordNet/WordNet.java:40-46 | An (id, noun) pair is scanned exactly when some record with that id lists that noun. |
| `TermIndex.TermsAreKeys` | WordNet/WordNet.java:47-52 | A noun is a key of `str2intMap` exactly when some record lists it. |
| `TermIndex.IdsAreVertices` | WordNet/WordNet.java:12 | When ids run 0 to S-1 in file order, every id listed under a noun is the position of a record that lists the noun, so the SAP engine is only asked about vertices. |
| `TermIndex.SynsetIdIsKey` | WordNet/WordNet.java:57-62 | An id is a key of `int2strMap` exactly when some noun is listed under it. |
| `TermIndex.SynsetNouns` | WordNet/WordNet.java:57-65 | When ids run 0 to S-1 in file order, the nouns listed under a synset's id are exactly that synset's nouns, in order. |
| `Rendering.Trim` | WordNet/WordNet.java:154 | The trimmed string is the part of the input that follows its leading blanks (characters at or below U+0020), with only blanks after it. It does not start or end with a blank. A string with non-blank ends is unchanged, and an all-blank string becomes empty. |
| `Rendering.LeadingBlanks` | WordNet/WordNet.java:154 | Counts exactly the blanks at the start of the string: all characters before the count are blanks, and the one at the count is not. |
| `Rendering.TrimStart` | WordNet/WordNet.java:154 | Removes exactly the leading characters at or below U+0020. |
| `Rendering.TrimEnd` | WordNet/WordNet.java:154 | Removes exactly the trailing characters at or below U+0020. |
| `Rendering.RenderIsJoin` | WordNet/WordNet.java:150-154 | For non-empty token nouns, trimming the accumulated "noun + space" string removes only the final space and leaves the nouns separated by single spaces. |
| `Rendering.SplitJoin` | WordNet/WordNet.java:12 | Splitting a non-empty list of joined words on spaces gives the list back whenever no word contains a space. Synset elements contain no space. |

## Left out

- File reading through `In`, `readLine`, `split(",")`, `split(" ")` and `Integer.parseInt` (lines 34-35, 42-44, 72, 76, 78). The model takes records already split: a synset is `(id, nouns)`, and a hypernym line is its list of integer fields. The gloss is never read, so it is not carried.
- The `main` test driver and its printing (lines 159-169).
- `DirectedCycle` is not part of this model. Its verdict comes from a `detector` parameter that must agree with `HasCycle`.
- `SAP` is not part of this model. Its `length` and `ancestor` are supplied functions of the digraph and the two id lists. Nothing about breadth-first search, tie-breaking or the value -1 is assumed or proved.
- Ontology.WordNet.Distance and Ontology.WordNet.Sap: the SAP engine is modelled as never failing. When synset ids are not 0 to S-1, the index can hand it ids that are not vertices, and any error `SAP` raises for them is not modelled. `IdsAreVertices` shows this cannot happen when ids follow the synset file's guarantee.
- `Digraph` is not part of this model. Its adjacency lists are modelled as sequences that `AddEdge` appends to, and the iteration order of its bags is not captured.
- Ontology.WordNet.Create: requires every field of every hypernym record with at least 2 fields to name a vertex. The range error that `Digraph.addEdge` would raise is not modelled, because `Digraph` is not part of this model.
- Java `int` overflow of ids and of the vertex counter `vNum` is not modelled. Ids are unbounded integers.
- The `ArrayList`s in the maps are updated in place and shared with the engine. The model holds them as sequence values, so aliasing is not captured. `nouns()` returns a live key-set view; the model returns a snapshot set.
- The performance requirements (line 2) cannot be expressed here: hash-table lookups, linear space, linearithmic construction and linear-time queries.
- Outcast detection (lines 6-8) is described only in comments and is not implemented in this file.
