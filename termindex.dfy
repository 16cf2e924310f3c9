/**
 * The two-way term index built from the synset records: noun -> synset ids
 * and synset id -> nouns. Both are views of one sequence of (id, noun)
 * pairs, taken in the order the records and their nouns are scanned.
 */
module TermIndex {

  /** One synset record, already split: its id and its nouns (the gloss is never read). */
  datatype Synset = Synset(id: int, nouns: seq<string>)

  /** The (id, noun) pairs of one record, in the order of its nouns. */
  function RecordPairs(s: Synset): (ps: seq<(int, string)>)
    ensures |ps| == |s.nouns|
    ensures forall j :: 0 <= j < |ps| ==> ps[j] == (s.id, s.nouns[j])
  {
    seq(|s.nouns|, j requires 0 <= j < |s.nouns| => (s.id, s.nouns[j]))
  }

  /** The (id, noun) pairs of all records, in scanning order. */
  function Pairs(recs: seq<Synset>): seq<(int, string)>
    decreases |recs|
  {
    if recs == [] then [] else Pairs(recs[..|recs| - 1]) + RecordPairs(recs[|recs| - 1])
  }

  /** The ids paired with noun `w`, in scanning order, repeats kept. */
  function IdsOf(ps: seq<(int, string)>, w: string): seq<int>
    decreases |ps|
  {
    if ps == [] then []
    else
      var p := ps[|ps| - 1];
      IdsOf(ps[..|ps| - 1], w) + (if p.1 == w then [p.0] else [])
  }

  /** The nouns paired with `id`, in scanning order, repeats kept. */
  function NounsOf(ps: seq<(int, string)>, id: int): seq<string>
    decreases |ps|
  {
    if ps == [] then []
    else
      var p := ps[|ps| - 1];
      NounsOf(ps[..|ps| - 1], id) + (if p.0 == id then [p.1] else [])
  }

  /** The noun -> ids map: one key per noun that occurs. */
  function Str2Int(ps: seq<(int, string)>): map<string, seq<int>> {
    map w | w in (set p | p in ps :: p.1) :: IdsOf(ps, w)
  }

  /** The id -> nouns map: one key per id that occurs. */
  function Int2Str(ps: seq<(int, string)>): map<int, seq<string>> {
    map id | id in (set p | p in ps :: p.0) :: NounsOf(ps, id)
  }

  /** How often `v` is listed under key `k`; 0 when `k` is absent. */
  function Occurrences<K, V(==)>(m: map<K, seq<V>>, k: K, v: V): nat {
    if k in m then multiset(m[k])[v] else 0
  }

  /** The noun `w` occurs in some record. */
  predicate IsTerm(recs: seq<Synset>, w: string) {
    exists i :: 0 <= i < |recs| && w in recs[i].nouns
  }

  /** Synset ids are 0 through S - 1 in file order. */
  predicate ContiguousIds(recs: seq<Synset>) {
    forall i :: 0 <= i < |recs| ==> recs[i].id == i
  }

  lemma {:induction false} IdsOfSnoc(ps: seq<(int, string)>, p: (int, string), w: string)
    ensures IdsOf(ps + [p], w) == IdsOf(ps, w) + (if p.1 == w then [p.0] else [])
  {
  }

  lemma {:induction false} NounsOfSnoc(ps: seq<(int, string)>, p: (int, string), id: int)
    ensures NounsOf(ps + [p], id) == NounsOf(ps, id) + (if p.0 == id then [p.1] else [])
  {
  }

  /** Scanning one more pair appends its id to its noun's list, creating the
      list when the noun is new, and leaves every other noun's list alone. */
  lemma {:induction false} Str2IntSnoc(ps: seq<(int, string)>, id: int, w: string)
    ensures Str2Int(ps + [(id, w)]) ==
      (var m := Str2Int(ps); if w in m then m[w := m[w] + [id]] else m[w := [id]])
  {
    var m, m' := Str2Int(ps), Str2Int(ps + [(id, w)]);
    var expected := if w in m then m[w := m[w] + [id]] else m[w := [id]];
    forall x
      ensures x in m' <==> x in expected
    {
      if x in expected && x != w {
        var p :| p in ps && p.1 == x;
        assert p in ps + [(id, w)];
      }
      if x in m' && x != w {
        var p :| p in ps + [(id, w)] && p.1 == x;
        assert p in ps;
      }
      assert (id, w) in ps + [(id, w)];
    }
    forall x | x in m'
      ensures m'[x] == expected[x]
    {
      IdsOfSnoc(ps, (id, w), x);
      if x == w && w !in m {
        IdsOfAbsent(ps, w);
      }
    }
  }

  /** Scanning one more pair appends its noun to its id's list, creating the
      list when the id is new, and leaves every other id's list alone. */
  lemma {:induction false} Int2StrSnoc(ps: seq<(int, string)>, id: int, w: string)
    ensures Int2Str(ps + [(id, w)]) ==
      (var m := Int2Str(ps); if id in m then m[id := m[id] + [w]] else m[id := [w]])
  {
    var m, m' := Int2Str(ps), Int2Str(ps + [(id, w)]);
    var expected := if id in m then m[id := m[id] + [w]] else m[id := [w]];
    forall x
      ensures x in m' <==> x in expected
    {
      if x in expected && x != id {
        var p :| p in ps && p.0 == x;
        assert p in ps + [(id, w)];
      }
      if x in m' && x != id {
        var p :| p in ps + [(id, w)] && p.0 == x;
        assert p in ps;
      }
      assert (id, w) in ps + [(id, w)];
    }
    forall x | x in m'
      ensures m'[x] == expected[x]
    {
      NounsOfSnoc(ps, (id, w), x);
      if x == id && id !in m {
        NounsOfAbsent(ps, id);
      }
    }
  }

  lemma {:induction false} IdsOfAbsent(ps: seq<(int, string)>, w: string)
    requires forall p :: p in ps ==> p.1 != w
    ensures IdsOf(ps, w) == []
    decreases |ps|
  {
    if ps != [] {
      IdsOfAbsent(ps[..|ps| - 1], w);
      assert ps[|ps| - 1] in ps;
    }
  }

  lemma {:induction false} NounsOfAbsent(ps: seq<(int, string)>, id: int)
    requires forall p :: p in ps ==> p.0 != id
    ensures NounsOf(ps, id) == []
    decreases |ps|
  {
    if ps != [] {
      NounsOfAbsent(ps[..|ps| - 1], id);
      assert ps[|ps| - 1] in ps;
    }
  }

  /** Each id is listed under `w` once per (id, w) pair scanned. */
  lemma {:induction false} IdsOfCount(ps: seq<(int, string)>, w: string, id: int)
    ensures multiset(IdsOf(ps, w))[id] == multiset(ps)[(id, w)]
    decreases |ps|
  {
    if ps != [] {
      var init, p := ps[..|ps| - 1], ps[|ps| - 1];
      IdsOfCount(init, w, id);
      assert ps == init + [p];
    }
  }

  /** Each noun is listed under `id` once per (id, w) pair scanned. */
  lemma {:induction false} NounsOfCount(ps: seq<(int, string)>, id: int, w: string)
    ensures multiset(NounsOf(ps, id))[w] == multiset(ps)[(id, w)]
    decreases |ps|
  {
    if ps != [] {
      var init, p := ps[..|ps| - 1], ps[|ps| - 1];
      NounsOfCount(init, id, w);
      assert ps == init + [p];
    }
  }

  /** The two maps are inverse views of the same pairs: `id` is listed under
      `w` exactly when `w` is listed under `id`, and equally often. */
  lemma {:induction false} IndexInverse(ps: seq<(int, string)>, id: int, w: string)
    ensures Occurrences(Str2Int(ps), w, id) == multiset(ps)[(id, w)]
    ensures Occurrences(Int2Str(ps), id, w) == multiset(ps)[(id, w)]
    ensures (w in Str2Int(ps) && id in Str2Int(ps)[w]) <==> (id in Int2Str(ps) && w in Int2Str(ps)[id])
  {
    IdsOfCount(ps, w, id);
    NounsOfCount(ps, id, w);
    if (id, w) in ps {
      assert w in Str2Int(ps) && id in Int2Str(ps);
    } else {
      assert multiset(ps)[(id, w)] == 0;
    }
    if w in Str2Int(ps) {
      assert id in multiset(Str2Int(ps)[w]) <==> id in Str2Int(ps)[w];
    }
    if id in Int2Str(ps) {
      assert w in multiset(Int2Str(ps)[id]) <==> w in Int2Str(ps)[id];
    }
  }

  /** Lists are only ever appended to: the ids scanned earlier come first. */
  lemma {:induction false} IdsOfAppend(ps: seq<(int, string)>, qs: seq<(int, string)>, w: string)
    ensures IdsOf(ps + qs, w) == IdsOf(ps, w) + IdsOf(qs, w)
    decreases |qs|
  {
    if qs == [] {
      assert ps + qs == ps;
    } else {
      var init, q := qs[..|qs| - 1], qs[|qs| - 1];
      IdsOfAppend(ps, init, w);
      assert ps + qs == (ps + init) + [q];
      IdsOfSnoc(ps + init, q, w);
    }
  }

  lemma {:induction false} NounsOfAppend(ps: seq<(int, string)>, qs: seq<(int, string)>, id: int)
    ensures NounsOf(ps + qs, id) == NounsOf(ps, id) + NounsOf(qs, id)
    decreases |qs|
  {
    if qs == [] {
      assert ps + qs == ps;
    } else {
      var init, q := qs[..|qs| - 1], qs[|qs| - 1];
      NounsOfAppend(ps, init, id);
      assert ps + qs == (ps + init) + [q];
      NounsOfSnoc(ps + init, q, id);
    }
  }

  /** A pair is scanned exactly when its record lists its noun. */
  lemma {:induction false} PairsMembers(recs: seq<Synset>, id: int, w: string)
    ensures (id, w) in Pairs(recs) <==> exists i :: 0 <= i < |recs| && recs[i].id == id && w in recs[i].nouns
    decreases |recs|
  {
    if recs != [] {
      var init, r := recs[..|recs| - 1], recs[|recs| - 1];
      PairsMembers(init, id, w);
      var rp := RecordPairs(r);
      if (id, w) in rp {
        var j :| 0 <= j < |rp| && rp[j] == (id, w);
        assert w == r.nouns[j];
      }
      if r.id == id && w in r.nouns {
        var j :| 0 <= j < |r.nouns| && r.nouns[j] == w;
        assert rp[j] == (id, w);
      }
      if exists i :: 0 <= i < |init| && init[i].id == id && w in init[i].nouns {
        var i :| 0 <= i < |init| && init[i].id == id && w in init[i].nouns;
        assert recs[i] == init[i];
      }
      if exists i :: 0 <= i < |recs| && recs[i].id == id && w in recs[i].nouns {
        var i :| 0 <= i < |recs| && recs[i].id == id && w in recs[i].nouns;
        if i < |init| {
          assert init[i] == recs[i];
        }
      }
    }
  }

  /** The nouns of the index are the nouns of the records. */
  lemma {:induction false} TermsAreKeys(recs: seq<Synset>)
    ensures forall w :: w in Str2Int(Pairs(recs)) <==> IsTerm(recs, w)
  {
    forall w
      ensures w in Str2Int(Pairs(recs)) <==> IsTerm(recs, w)
    {
      var ps := Pairs(recs);
      if w in Str2Int(ps) {
        var p :| p in ps && p.1 == w;
        PairsMembers(recs, p.0, w);
      }
      if IsTerm(recs, w) {
        var i :| 0 <= i < |recs| && w in recs[i].nouns;
        PairsMembers(recs, recs[i].id, w);
      }
    }
  }

  /** When ids run 0 to S-1 in file order, every id listed under a noun is the
      position of a synset record that lists that noun: a vertex of the digraph. */
  lemma {:induction false} IdsAreVertices(recs: seq<Synset>, w: string)
    requires ContiguousIds(recs)
    ensures forall id :: id in IdsOf(Pairs(recs), w) ==> 0 <= id < |recs| && w in recs[id].nouns
  {
    var ps := Pairs(recs);
    forall id | id in IdsOf(ps, w)
      ensures 0 <= id < |recs| && w in recs[id].nouns
    {
      IdsOfCount(ps, w, id);
      PairsMembers(recs, id, w);
      var i :| 0 <= i < |recs| && recs[i].id == id && w in recs[i].nouns;
    }
  }

  /** An id is a key of the id -> nouns map exactly when some noun is listed under it. */
  lemma {:induction false} SynsetIdIsKey(ps: seq<(int, string)>, id: int)
    ensures id in Int2Str(ps) <==> NounsOf(ps, id) != []
  {
    if id in Int2Str(ps) {
      var p :| p in ps && p.0 == id;
      NounsOfCount(ps, id, p.1);
      assert multiset(ps)[(id, p.1)] > 0;
    }
    if NounsOf(ps, id) != [] {
      var w := NounsOf(ps, id)[0];
      NounsOfCount(ps, id, w);
      assert w in multiset(NounsOf(ps, id));
      assert (id, w) in multiset(ps);
    }
  }

  lemma {:induction false} RecordNouns(s: Synset, id: int)
    ensures NounsOf(RecordPairs(s), id) == if s.id == id then s.nouns else []
    decreases |s.nouns|
  {
    if s.nouns != [] {
      var init := Synset(s.id, s.nouns[..|s.nouns| - 1]);
      RecordNouns(init, id);
      assert RecordPairs(s)[..|s.nouns| - 1] == RecordPairs(init);
    }
  }

  /** The nouns listed under `id` are those of the records with that id, record after record. */
  lemma {:induction false} NounsOfRecords(recs: seq<Synset>, id: int, k: nat)
    requires ContiguousIds(recs) && k <= |recs|
    ensures NounsOf(Pairs(recs[..k]), id) == if 0 <= id < k then recs[id].nouns else []
    decreases k
  {
    if k > 0 {
      var prefix := recs[..k];
      assert prefix[..k - 1] == recs[..k - 1];
      NounsOfRecords(recs, id, k - 1);
      NounsOfAppend(Pairs(recs[..k - 1]), RecordPairs(recs[k - 1]), id);
      RecordNouns(recs[k - 1], id);
    }
  }

  /** With ids 0 through S - 1, the nouns listed under a synset id are that
      synset's nouns in file order, whenever it has any. */
  lemma {:induction false} SynsetNouns(recs: seq<Synset>, id: int)
    requires ContiguousIds(recs) && 0 <= id < |recs| && recs[id].nouns != []
    ensures id in Int2Str(Pairs(recs)) && Int2Str(Pairs(recs))[id] == recs[id].nouns
  {
    var w := recs[id].nouns[0];
    PairsMembers(recs, id, w);
    assert recs[..|recs|] == recs;
    NounsOfRecords(recs, id, |recs|);
  }
}
