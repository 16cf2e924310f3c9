/**
 * The WordNet ontology layer: it indexes the synset records both ways, builds
 * the hypernym digraph, refuses any digraph that is not a rooted DAG, and
 * answers noun-level queries through the shortest-ancestral-path engine.
 */
module Ontology {
  import opened Results
  import opened Digraphs
  import opened Hypernyms
  import opened TermIndex
  import opened Rendering

  /** The two queries of the shortest-ancestral-path engine, whose algorithm is
      not part of this model: each takes the digraph and two lists of synset ids
      and gives a length, or a synset id (-1 when there is no common ancestor). */
  datatype SapQueries = SapQueries(
    length: (Adjacency, seq<int>, seq<int>) -> int,
    ancestor: (Adjacency, seq<int>, seq<int>) -> int)

  /** The engine, built once over the finished digraph. */
  class AncestralPaths {
    const graph: Adjacency
    const queries: SapQueries

    constructor (g: Digraph, queries: SapQueries)
      ensures graph == g.adj && this.queries == queries
    {
      graph := g.adj;
      this.queries := queries;
    }

    function Length(idsA: seq<int>, idsB: seq<int>): int {
      queries.length(graph, idsA, idsB)
    }

    function Ancestor(idsA: seq<int>, idsB: seq<int>): int {
      queries.ancestor(graph, idsA, idsB)
    }
  }

  class WordNet {
    var int2strMap: map<int, seq<string>>
    var str2intMap: map<string, seq<int>>
    var wordNet: Digraph?
    var sap: AncestralPaths?

    /** The records the object was built from. */
    ghost var synsetRecords: seq<Synset>
    ghost var hypernymRecords: seq<seq<int>>

    /** Both maps and the digraph are what the records describe. */
    ghost predicate Indexed()
      reads this, wordNet
    {
      str2intMap == Str2Int(Pairs(synsetRecords)) &&
      int2strMap == Int2Str(Pairs(synsetRecords)) &&
      EdgesInRange(|synsetRecords|, hypernymRecords) &&
      wordNet != null &&
      wordNet.adj == HypernymGraph(|synsetRecords|, hypernymRecords)
    }

    /** A constructed ontology: indexed, a rooted DAG, with its engine. */
    ghost predicate Valid()
      reads this, wordNet
    {
      Indexed() && IsRootedDag(wordNet.adj) && sap != null && sap.graph == wordNet.adj
    }

    /** Reads the records: indexes every noun of every synset, counts the
        synsets as the digraph's vertices and adds the hypernym edges. */
    constructor (synsets: seq<Synset>, hypernyms: seq<seq<int>>)
      requires EdgesInRange(|synsets|, hypernyms)
      ensures synsetRecords == synsets && hypernymRecords == hypernyms
      ensures Indexed() && fresh(wordNet) && sap == null
      ensures |wordNet.adj| == |synsets|
    {
      synsetRecords, hypernymRecords := synsets, hypernyms;
      int2strMap, str2intMap := map[], map[];
      wordNet, sap := null, null;
      new;
      var vNum := 0;
      var i := 0;
      while i < |synsets|
        invariant 0 <= i <= |synsets| && vNum == i
        invariant str2intMap == Str2Int(Pairs(synsets[..i]))
        invariant int2strMap == Int2Str(Pairs(synsets[..i]))
        invariant synsetRecords == synsets && hypernymRecords == hypernyms
        invariant wordNet == null && sap == null
      {
        vNum := vNum + 1;
        IndexNouns(synsets[i].id, synsets[i].nouns, Pairs(synsets[..i]));
        assert synsets[..i + 1][..i] == synsets[..i];
        assert Synset(synsets[i].id, synsets[i].nouns) == synsets[i];
        i := i + 1;
      }
      assert synsets[..i] == synsets;

      wordNet := new Digraph(vNum);
      var k := 0;
      while k < |hypernyms|
        invariant 0 <= k <= |hypernyms|
        invariant wordNet != null && fresh(wordNet)
        invariant wordNet.adj == HypernymGraph(vNum, hypernyms[..k])
        invariant str2intMap == Str2Int(Pairs(synsets)) && int2strMap == Int2Str(Pairs(synsets))
        invariant synsetRecords == synsets && hypernymRecords == hypernyms && sap == null
      {
        var virticles := hypernyms[k];
        assert hypernyms[..k + 1] == hypernyms[..k] + [virticles];
        k := k + 1;
        if |virticles| < 2 {
          continue;
        }
        assert virticles in hypernyms;
        assert forall i :: 0 <= i < |virticles| ==> virticles[i] in virticles;
        AddHypernyms(wordNet, virticles);
      }
      assert hypernyms[..k] == hypernyms;
    }

    /** Scans the nouns of one synset: appends `id` to each noun's list and the
        noun to `id`'s list, creating a list the first time its key is seen. */
    method IndexNouns(id: int, words: seq<string>, ghost scanned: seq<(int, string)>)
      requires str2intMap == Str2Int(scanned) && int2strMap == Int2Str(scanned)
      modifies this`str2intMap, this`int2strMap
      ensures str2intMap == Str2Int(scanned + RecordPairs(Synset(id, words)))
      ensures int2strMap == Int2Str(scanned + RecordPairs(Synset(id, words)))
    {
      ghost var added := RecordPairs(Synset(id, words));
      assert scanned + added[..0] == scanned;
      for j := 0 to |words|
        invariant str2intMap == Str2Int(scanned + added[..j])
        invariant int2strMap == Int2Str(scanned + added[..j])
      {
        var word := words[j];
        assert scanned + added[..j + 1] == (scanned + added[..j]) + [(id, word)];
        Str2IntSnoc(scanned + added[..j], id, word);
        Int2StrSnoc(scanned + added[..j], id, word);
        if word in str2intMap {
          str2intMap := str2intMap[word := str2intMap[word] + [id]];
        } else {
          str2intMap := str2intMap[word := [id]];
        }
        if id in int2strMap {
          int2strMap := int2strMap[id := int2strMap[id] + [word]];
        } else {
          int2strMap := int2strMap[id := [word]];
        }
      }
      assert added[..|words|] == added;
    }

    /** Adds the edges of one hypernym record with two fields or more:
        `virticles[0] -> virticles[e]` for each later field, in order. */
    static method AddHypernyms(g: Digraph, virticles: seq<int>)
      requires |virticles| >= 2 && forall i :: 0 <= i < |virticles| ==> 0 <= virticles[i] < |g.adj|
      modifies g
      ensures g.adj == AddRecord(old(g.adj), virticles)
    {
      var child := virticles[0];
      ghost var before := g.adj;
      assert before[child] + virticles[1..1] == before[child];
      assert before[child := before[child]] == before;
      for e := 1 to |virticles|
        invariant g.adj == before[child := before[child] + virticles[1..e]]
      {
        assert virticles[1..e + 1] == virticles[1..e] + [virticles[e]];
        var ancestor := virticles[e];
        g.AddEdge(child, ancestor);
        assert before[child] + virticles[1..e + 1] == before[child] + virticles[1..e] + [ancestor];
      }
      assert virticles[1..|virticles|] == virticles[1..];
    }

    /** The rooted-DAG check: the cycle detector finds no cycle, and counting
        the vertices of outdegree 0 gives exactly one. */
    static method IsValidGraph(g: Digraph, detector: Adjacency -> bool) returns (valid: bool)
      requires DecidesCycles(detector)
      ensures valid <==> !HasCycle(g.adj) && |Roots(g.adj)| == 1
    {
      if detector(g.adj) {
        return false;
      }
      var rootNum := 0;
      for i := 0 to g.V()
        invariant rootNum == |RootsBelow(g.adj, i)|
      {
        if g.Outdegree(i) == 0 {
          assert RootsBelow(g.adj, i + 1) == RootsBelow(g.adj, i) + {i};
          rootNum := rootNum + 1;
        } else {
          assert RootsBelow(g.adj, i + 1) == RootsBelow(g.adj, i);
        }
      }
      return rootNum == 1;
    }

    /** The public constructor: refuses a missing argument, builds the index
        and the digraph, refuses a digraph that is not a rooted DAG, and only
        then builds the shortest-ancestral-path engine. */
    static method Create(synsets: Option<seq<Synset>>, hypernyms: Option<seq<seq<int>>>,
                         detector: Adjacency -> bool, queries: SapQueries)
      returns (r: Result<WordNet>)
      requires DecidesCycles(detector)
      requires synsets.Some? && hypernyms.Some? ==> EdgesInRange(|synsets.value|, hypernyms.value)
      ensures synsets.None? || hypernyms.None? ==> r == Err(NullPointerException)
      ensures synsets.Some? && hypernyms.Some? ==>
        (r.Ok? <==> IsRootedDag(HypernymGraph(|synsets.value|, hypernyms.value))) &&
        (r.Err? ==> r.error == IllegalArgumentException)
      ensures r.Ok? ==>
        fresh(r.value) && r.value.Valid() && fresh(r.value.wordNet) && fresh(r.value.sap) &&
        r.value.synsetRecords == synsets.value && r.value.hypernymRecords == hypernyms.value &&
        r.value.sap.queries == queries
    {
      if synsets.None? || hypernyms.None? {
        return Err(NullPointerException);
      }
      var w := new WordNet(synsets.value, hypernyms.value);
      var valid := IsValidGraph(w.wordNet, detector);
      if !valid {
        return Err(IllegalArgumentException);
      }
      w.sap := new AncestralPaths(w.wordNet, queries);
      return Ok(w);
    }

    /** Every noun of every synset, each once. */
    function Nouns(): (ns: set<string>)
      reads this, wordNet
      requires Valid()
      ensures forall w :: w in ns <==> IsTerm(synsetRecords, w)
    {
      TermsAreKeys(synsetRecords);
      str2intMap.Keys
    }

    /** Whether `word` is a noun of some synset; a null word throws. */
    function IsNoun(word: Option<string>): (r: Result<bool>)
      reads this, wordNet
      requires Valid()
      ensures word.None? ==> r == Err(NullPointerException)
      ensures word.Some? ==> r == Ok(IsTerm(synsetRecords, word.value))
    {
      TermsAreKeys(synsetRecords);
      if word.None? then Err(NullPointerException)
      else Ok(word.value in str2intMap)
    }

    /** The length of a shortest ancestral path between any synset of `nounA`
        and any synset of `nounB`: null checks first, then unknown nouns, and
        only then the engine, given every synset id of each noun. */
    function Distance(nounA: Option<string>, nounB: Option<string>): (r: Result<int>)
      reads this, wordNet
      requires Valid()
      ensures nounA.None? || nounB.None? ==> r == Err(NullPointerException)
      ensures (nounA.Some? && nounB.Some? &&
               !(IsTerm(synsetRecords, nounA.value) && IsTerm(synsetRecords, nounB.value))) ==>
        r == Err(IllegalArgumentException)
      ensures (nounA.Some? && nounB.Some? &&
               IsTerm(synsetRecords, nounA.value) && IsTerm(synsetRecords, nounB.value)) ==>
        r == Ok(sap.Length(IdsOf(Pairs(synsetRecords), nounA.value), IdsOf(Pairs(synsetRecords), nounB.value)))
    {
      if nounA.None? || nounB.None? then Err(NullPointerException)
      else if IsNoun(nounA) != Ok(true) || IsNoun(nounB) != Ok(true) then Err(IllegalArgumentException)
      else Ok(sap.Length(str2intMap[nounA.value], str2intMap[nounB.value]))
    }

    /** The synset that is the common ancestor of `nounA` and `nounB` on a
        shortest ancestral path, rendered as text; null (`Ok(None)`) when the
        engine finds no common ancestor. */
    method Sap(nounA: Option<string>, nounB: Option<string>) returns (r: Result<Option<string>>)
      requires Valid()
      ensures nounA.None? || nounB.None? ==> r == Err(NullPointerException)
      ensures (nounA.Some? && nounB.Some? &&
               !(IsTerm(synsetRecords, nounA.value) && IsTerm(synsetRecords, nounB.value))) ==>
        r == Err(IllegalArgumentException)
      ensures (nounA.Some? && nounB.Some? &&
               IsTerm(synsetRecords, nounA.value) && IsTerm(synsetRecords, nounB.value)) ==>
        var ps := Pairs(synsetRecords);
        var ancestor := sap.Ancestor(IdsOf(ps, nounA.value), IdsOf(ps, nounB.value));
        if ancestor == -1 then r == Ok(None)
        else if NounsOf(ps, ancestor) == [] then r == Err(NullPointerException)
        else r == Ok(Some(Trim(Spaced(NounsOf(ps, ancestor)))))
    {
      if nounA.None? || nounB.None? {
        return Err(NullPointerException);
      }
      if IsNoun(nounA) != Ok(true) || IsNoun(nounB) != Ok(true) {
        return Err(IllegalArgumentException);
      }
      var idA, idB := str2intMap[nounA.value], str2intMap[nounB.value];
      var ancestor := sap.Ancestor(idA, idB);
      if ancestor == -1 {
        return Ok(None);
      }
      SynsetIdIsKey(Pairs(synsetRecords), ancestor);
      if ancestor !in int2strMap {
        // iterating over the missing list dereferences null
        return Err(NullPointerException);
      }
      var result := RenderSynset(int2strMap[ancestor]);
      return Ok(Some(result));
    }
  }

  /** Each noun followed by a space, accumulated in order, then trimmed. For
      nouns that are tokens, as the synset file guarantees, this is the nouns
      separated by single spaces, and splitting it on spaces gives them back. */
  method RenderSynset(words: seq<string>) returns (s: string)
    ensures s == Trim(Spaced(words))
    ensures (words != [] && forall i :: 0 <= i < |words| ==> IsToken(words[i])) ==>
      s == Join(words) && Split(s) == words
  {
    var result := "";
    for i := 0 to |words|
      invariant result == Spaced(words[..i])
    {
      assert words[..i + 1] == words[..i] + [words[i]];
      SpacedSnoc(words[..i], words[i]);
      result := result + (words[i] + " ");
    }
    assert words[..|words|] == words;
    s := Trim(result);
    if words != [] && forall i :: 0 <= i < |words| ==> IsToken(words[i]) {
      RenderIsJoin(words);
      SplitJoin(words);
    }
  }
}
