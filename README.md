# My Little Pony script analysis: interaction graph and word counts

This project models two parts of a set of scripts that analyse the
dialogue of *My Little Pony: Friendship is Magic*, and proves properties
of the model.

- **The character interaction graph.** The script is a list of rows.
  Each row has an episode title, a speaker and a line of dialog. The rows
  are read in order. A "previous speaker" is kept and reset to `''` at
  each new episode title. When the current speaker and the previous
  speaker form a valid interaction, the edge between them is created with
  weight 1 or its weight goes up by 1. A valid interaction needs:
  - two different names;
  - both names among the most frequent speakers;
  - neither name containing `others`, `ponies`, `and` or `all`.

  The graph is then exported as an adjacency dictionary in which each
  edge is written under one endpoint only.
- **Per-character word frequencies.** Only rows spoken by one of six main
  characters are used. Each line is cleaned: stage cues `[...]` and
  contractions are removed, and punctuation becomes spaces. The line is
  then lowercased and split on whitespace. Every word that is not a
  stopword is added to that character's table. At the end, words said
  fewer than 5 times are deleted.

The files:

- `transcript.dfy` (module `Transcript`): the `Row` record and the string
  builtins both scripts use. These are `str.lower`, `str.split()` with no
  argument, `sub in s`, and `str.replace` of a single character.
- `interaction_network.dfy` (module `InteractionNetwork`):
  - `IsValidInteraction`.
  - What the row loop computes, stated on the rows: `TransitionCount`
    counts the rows that strengthen a given edge.
  - The networkx graph as a class `Graph`: its nodes in insertion order
    and a weight map over unordered pairs.
  - The row loop `BuildInteractionsGraph`.
  - The export `Graph.Export`.
- `word_counts.dfy` (module `WordCounts`):
  - The regular-expression substitution of `remove_punctuation`, as a
    left-to-right scanner.
  - The punctuation loop `RemovePunctuation`.
  - The word count `CountWordFreqPerPony`, split into three methods:
    `TallyRows` (the row loop and its `Counter` step), `AddDialogCounts`
    (adding one line's counts) and `ApplyThreshold`/`DropRare` (the
    threshold deletion).
  - The reference definitions `PonyWords` and `Tally`. Together they give
    the exact count of every word through a multiset.

Two details of the code shape the model:

- **Contractions.** The pattern `\w*'\w*` removes the whole word around
  the apostrophe: `I've` disappears completely. `StripExample` shows this.
- **The top-101 list.** The top-101 count is case-sensitive. Only the
  selected names are lowercased, after the count.

An edge is the set of its endpoints, `{a, b}`, so an edge does not depend
on which endpoint spoke first. Counts are Python integers, which are
unbounded, so they are modelled as `nat`.

## Model

| member | source | states |
|---|---|---|
| Transcript.Lower | scripts/compile_word_counts.py:47 | `str.lower` keeps the length and maps each letter `A`–`Z` to its lower-case letter, every other character to itself |
| Transcript.ReplaceChar | scripts/compile_word_counts.py:27 | `str.replace` of one character keeps the length, puts `d` exactly where `c` was, keeps every other character, and leaves no `c` when `c != d` |
| Transcript.IsSubstring | scripts/build_interaction_network.py:19-20 | `w in c` is true exactly when `w` occurs in `c` at some position |
| Transcript.Split | scripts/compile_word_counts.py:47 | every word `split()` returns is non-empty and has no whitespace; together the words hold exactly the non-whitespace characters of the text, in order |
| Transcript.IsSpace | scripts/compile_word_counts.py:47 | space, tab, newline and carriage return are whitespace; no whitespace character is a letter or a digit |
| Transcript.SplitOfToken | scripts/compile_word_counts.py:47 | a non-empty text without whitespace splits into the one word that is the text itself |
| Transcript.SplitAtSpace | scripts/compile_word_counts.py:47 | the words of `a`, a whitespace character, then `b` are the words of `a` followed by the words of `b`: no word spans whitespace, so with `SplitOfToken` the words are exactly the maximal runs of non-whitespace |
| Transcript.LowerIsLowercase | scripts/compile_word_counts.py:47 | lowering keeps the length, leaves no upper-case letter and never creates or removes whitespace |
| Transcript.LowerOfLowercase | scripts/build_interaction_network.py:28 | lowering an already lowercase name returns it unchanged |
| Transcript.SplitKeepsLowercase | scripts/compile_word_counts.py:47 | the words split from lowercase text contain no upper-case letter |
| InteractionNetwork.HasCharacterStopword | scripts/build_interaction_network.py:19-20 | `any(w in c for w in CHARACTER_STOPWORDS)` is true exactly when one of the four group words occurs in the name at some position |
| InteractionNetwork.IsEligible | scripts/build_interaction_network.py:19-20 | a name may take part exactly when it is listed and none of the four group words occurs in it |
| InteractionNetwork.IsValidInteraction | scripts/build_interaction_network.py:15-21 | true exactly when the names differ, both are listed, and none of the four group words occurs in either name |
| InteractionNetwork.ValidInteractionIsSymmetric | scripts/build_interaction_network.py:15-21 | the relation does not depend on the order of the two names |
| InteractionNetwork.SpeakerBefore | scripts/build_interaction_network.py:33-47 | the previous speaker at row `i` is `''` at the first row and at the first row of each episode; otherwise it is the lowercased speaker of row `i - 1` of the same episode |
| InteractionNetwork.NoSelfLoops | scripts/build_interaction_network.py:15-17 | every edge the row loop strengthens has two distinct endpoints |
| InteractionNetwork.EndpointsAreEligible | scripts/build_interaction_network.py:12-21 | every endpoint of every edge is a listed speaker whose name contains none of the four group words |
| InteractionNetwork.EpisodeStartAddsNothing | scripts/build_interaction_network.py:35-37 | when the empty name is not listed, the first row and the first row of each episode add no weight to any edge |
| InteractionNetwork.ExcludedSpeakerBreaksAdjacency | scripts/build_interaction_network.py:47 | a speaker who can never interact still becomes the previous speaker, so that row and the next one add no weight to any edge |
| InteractionNetwork.OneEdgePerRow | scripts/build_interaction_network.py:41-45 | each row leaves every edge unchanged, except that the edge between its speaker and the previous speaker may gain exactly 1 |
| InteractionNetwork.WeightCountsTransitions | scripts/build_interaction_network.py:33-47 | when the empty name is not listed, an edge's count equals the number of rows that follow a row of the same episode, with the two speakers forming a valid pair along that edge |
| InteractionNetwork.NoStopwordIn | scripts/build_interaction_network.py:12 | a name with no `o`, no `d` and no `ll` contains none of the group words |
| InteractionNetwork.WorkedExample | scripts/build_interaction_network.py:33-47 | rows (ep1, twilight), (ep1, applejack), (ep2, twilight) give weight 1 to twilight–applejack and 0 to every other edge |
| InteractionNetwork.NodeOrderExample | scripts/build_interaction_network.py:33-47 | rows (ep1, twilight), (ep1, applejack) give the nodes `applejack`, `twilight`: the current speaker is added before the previous one |
| InteractionNetwork.Graph.constructor | scripts/build_interaction_network.py:30 | a new graph has no nodes and no edges |
| InteractionNetwork.Graph.HasEdge | scripts/build_interaction_network.py:42 | `has_edge(u, v)` holds exactly when the edge `{v, u}` has a weight, so it does not depend on the order of the endpoints |
| InteractionNetwork.AppendedPresent | scripts/build_interaction_network.py:45 | adding an edge whose endpoints are both present leaves the node list unchanged |
| InteractionNetwork.Graph.AddEdge | scripts/build_interaction_network.py:45 | the new edge gets weight 1; endpoints not yet present are appended to the nodes in order; every other edge is unchanged; the graph stays well formed |
| InteractionNetwork.Graph.Strengthen | scripts/build_interaction_network.py:42-45 | an existing edge's weight goes up by 1 and the nodes stay as they were; a missing edge is created with weight 1 and its endpoints not yet present are appended, `u` before `v`, as `add_edge` does; no other weight changes and the graph stays well formed |
| InteractionNetwork.Graph.IncrementWeight | scripts/build_interaction_network.py:42-43 | an existing edge's weight goes up by exactly 1; nothing else changes |
| InteractionNetwork.Graph.Export | scripts/build_interaction_network.py:92-94 | every node and nothing else is a key; `v` is under `u` exactly when `u` was added no later than `v` and the edge exists; the value is the edge's weight; each edge between distinct nodes is written under exactly one of its endpoints |
| InteractionNetwork.ExportRows | scripts/build_interaction_network.py:91-94 | the loop over all nodes, starting from one empty dictionary per node, builds the whole dictionary `ExportedAt(nodes, weight, n, n)` |
| InteractionNetwork.ExportRow | scripts/build_interaction_network.py:93-94 | one pass over the edges from the node at position `i` to the nodes at positions `i` and later takes the dictionary from `ExportedAt(.., i, i)` to `ExportedAt(.., i + 1, i + 1)` |
| InteractionNetwork.ExportedAtKeys | scripts/build_interaction_network.py:91-94 | writing edges never adds or removes a key: the keys are exactly the nodes |
| InteractionNetwork.ExportedAtListed | scripts/build_interaction_network.py:93-94 | every name written under a key is a node |
| InteractionNetwork.ExportedAtCell | scripts/build_interaction_network.py:93-94 | before position (i, j), `nodes[b]` is under `nodes[a]` exactly when `a <= b`, the edge exists and (a, b) has been visited, and then with the edge's weight |
| InteractionNetwork.ExportIsOncePerEdge | scripts/build_interaction_network.py:91-94 | from node positions to names: the keys are the nodes; a neighbour is listed exactly when it was added no later than the key and the edge exists, with the edge's weight, so no edge is listed twice |
| InteractionNetwork.CountedStep | scripts/build_interaction_network.py:41-45 | a row that does not interact keeps the counts of the rows before it; one that does adds 1 to its edge, or creates it with 1 |
| InteractionNetwork.RecordRow | scripts/build_interaction_network.py:41-45 | handling row `i` keeps the graph well formed and takes the weights from the counts of the first `i` rows to those of the first `i + 1`, and the nodes from `NodesAfter` `i` to `NodesAfter` `i + 1` |
| InteractionNetwork.BuildInteractionsGraph | scripts/build_interaction_network.py:33-47 | the result is a well-formed graph whose edges are exactly those with a positive count, each weighted by that count; its nodes are `NodesAfter` all rows: in row order, each interacting row appends its speaker and then the previous speaker when they are new |
| WordCounts.IsWordChar | scripts/compile_word_counts.py:22 | a `\w` character is never whitespace, an apostrophe, a bracket or one of the punctuation characters the cleaning replaces |
| WordCounts.WordRunEnd | scripts/compile_word_counts.py:22 | the greedy `\w*` run from `i` ends at `k`: every character before `k` is a word character and the one at `k`, if any, is not |
| WordCounts.CueEnd | scripts/compile_word_counts.py:22 | `.*?\]` from `i` ends at the first `]` with no newline or `]` before it; when it fails, every `]` from `i` on has a newline before it |
| WordCounts.StripCuesAndContractions | scripts/compile_word_counts.py:22 | the substitution never lengthens the text and leaves no apostrophe |
| WordCounts.StripKeepsPrefix | scripts/compile_word_counts.py:22 | a prefix with no `[`, no apostrophe and not ending in a word character is kept as it is, and the rest is substituted on its own |
| WordCounts.StripIsSubsequence | scripts/compile_word_counts.py:22 | the substitution only removes characters: its result is a subsequence of the text |
| WordCounts.NoCueSurvives | scripts/compile_word_counts.py:22 | after the substitution no `[` is followed by a `]` on the same line |
| WordCounts.StripLeavesCleanText | scripts/compile_word_counts.py:22 | text without an apostrophe and without a cue is left unchanged |
| WordCounts.StripIsIdempotent | scripts/compile_word_counts.py:22 | a second substitution changes nothing |
| WordCounts.StripExample | scripts/compile_word_counts.py:22 | `[a]b'c d` becomes ` d`: the cue and the whole contraction go |
| WordCounts.StripContractionExample | scripts/compile_word_counts.py:22 | `b'c d` becomes ` d`: the word characters on both sides of the apostrophe go with it |
| WordCounts.StripKeepsBrokenCue | scripts/compile_word_counts.py:22 | a cue broken by a newline is not removed |
| WordCounts.Depunctuated | scripts/compile_word_counts.py:20-29 | the cleaned dialog has the length of the substituted dialog and differs from it only by spaces put in place of characters |
| WordCounts.DepunctuatedIsClean | scripts/compile_word_counts.py:24-27 | the cleaned dialog contains none of `()[],-.?!:;#&` and no apostrophe, and is never longer than the input |
| WordCounts.DepunctuatedIsIdempotent | scripts/compile_word_counts.py:20-29 | cleaning cleaned dialog changes nothing |
| WordCounts.RemovePunctuation | scripts/compile_word_counts.py:20-29 | the loop's result is the substitution's result with every punctuation character replaced by a space |
| WordCounts.Words | scripts/compile_word_counts.py:46-47 | each word of a line is non-empty, has no whitespace and has no upper-case letter |
| WordCounts.SpeakingPoniesAreListedSpeakers | scripts/compile_word_counts.py:39-44 | a name gets a table exactly when it is one of the six and some row's lowercased speaker is that name |
| WordCounts.UnlistedRowChangesNothing | scripts/compile_word_counts.py:39-41 | a row spoken by anyone but the six changes neither the keys nor any count |
| WordCounts.SilentPonySaysNothing | scripts/compile_word_counts.py:43-44 | a main character with no row so far has said no word, so its new table is empty |
| WordCounts.TalliedWordsAreTokens | scripts/compile_word_counts.py:47 | every counted word is non-empty, has no whitespace and has no upper-case letter |
| WordCounts.Get | scripts/compile_word_counts.py:44-52 | reading a `defaultdict(int)` gives the stored count of a word, and 0 for a word that is absent |
| WordCounts.Counter | scripts/compile_word_counts.py:48 | `Counter(words)` has exactly the words of the list as keys, each with its number of occurrences, which is at least 1 |
| WordCounts.CounterMatchesTokenCounting | scripts/compile_word_counts.py:48-52 | adding a `Counter`'s totals gives the same table as adding the tokens one at a time |
| WordCounts.CountsAccumulated | scripts/compile_word_counts.py:50-52 | adding a line to a table of what was said before gives the table of everything said, without stopwords |
| WordCounts.AddDialogCounts | scripts/compile_word_counts.py:48-52 | every word keeps its count plus its number of occurrences in the line, unless it is a stopword; nothing else is added |
| WordCounts.TallyRows | scripts/compile_word_counts.py:38-52 | after the row loop the keys are exactly the main characters with a row, and each table holds exactly the non-stopwords that character says, each with its number of occurrences |
| WordCounts.DropRare | scripts/compile_word_counts.py:56-58 | a word is kept exactly when its count is at least 5; kept counts are unchanged |
| WordCounts.ApplyThreshold | scripts/compile_word_counts.py:55-58 | the keys stay the same; each table loses exactly its words below 5 and keeps the rest unchanged |
| WordCounts.CountWordFreqPerPony | scripts/compile_word_counts.py:32-60 | the keys are the main characters with a row; a word is in a character's table exactly when it is not a stopword and the character says it at least 5 times; the value is that number |

## Left out

- File input and output are not modelled: reading the CSV, `json.dump`, creating directories, and the command line. The rows are a sequence of records and the results are maps.
- Stopwords are not read from a file: `load_stopwords` is replaced by a `stopwords` parameter.
- The list of most frequent speakers is a parameter. It comes from pandas `value_counts` on the raw names, so its tie order is unknown. The count is also case-sensitive before the names are lowercased. `BuildInteractionsGraph` holds for any list.
- `draw_graph` is not modelled: it is plotting with a floating-point layout and colours.
- `compute_pony_lang.py` and `compute_network_stats.py` are not part of this model: both are floating-point computations or calls into networkx.
- Unicode is not modelled. `\w` is the ASCII class `[A-Za-z0-9_]`, and `str.lower` maps only `A`–`Z`. Python applies both to all of Unicode. `str.split()` uses Python's full whitespace set.
- Graph.Export does not keep networkx's neighbour order. Neighbours are visited in node order instead. The same pairs and weights end up in the same dictionary, so the exported content is unchanged, but key order inside each inner dictionary may differ.
- Graph.Export does not model aliasing. `dict(g.nodes)` shares each node's attribute dictionary with the graph, so the export also writes into the graph's node data. The graph is not used afterwards.
- AddDialogCounts visits the `Counter`'s words in an arbitrary order instead of `most_common` order. The order does not change the sums.
- Missing values in the CSV are not modelled. pandas reads an empty name as a float, and `.lower()` on it raises an error.
- The progress messages the scripts print are not modelled.
