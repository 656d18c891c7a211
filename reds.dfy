/**
 * The public surface of pyreds: `create_search`, the `Search` object that
 * indexes, removes and queries texts under a key namespace, and the `Query`
 * object whose `end` runs a search.  The Redis client is the `Store` the
 * search is given; the stemmer, the stop words and the metaphone function
 * are the `Language` it is given.
 */
module Reds {
  import opened Wrappers
  import opened Keys
  import opened Text
  import opened SortedSets
  import IndexSpec
  import QuerySpec

  /** The query types and the combine each one selects. */
  const Types: map<string, SetOp> := map["intersect" := Inter, "union" := Union, "and" := Inter, "or" := Union]

  /** The combine for a requested type: a known name selects its own, anything else (or none) an intersection. */
  function TypeFor(t: Option<string>): (r: SetOp)
    ensures r == Union <==> t == Some("union") || t == Some("or")
  {
    if t.Some? && t.value != "" && t.value in Types then Types[t.value] else Types["and"]
  }

  const NoKeyMessage := "create_search() requires a redis key for namespacing."

  /** A search over `store` namespaced by `key`; the empty key is refused. */
  method CreateSearch(key: string, store: Store, lang: Language) returns (r: Result<Search, string>)
    ensures r.Failure? <==> key == ""
    ensures r.Failure? ==> r.error == NoKeyMessage
    ensures r.Success? ==> fresh(r.value) && r.value.key == key && r.value.store == store && r.value.lang == lang
  {
    if key == "" {
      return Failure(NoKeyMessage);
    }
    var search := new Search(key, store, lang);
    return Success(search);
  }

  /** The ZADD pairs `index` queues: one per distinct word, scored from the word counts. */
  method IndexPipeline(ns: string, id: string, metaphone: string -> string, words: seq<string>) returns (cmds: seq<Command>)
    ensures cmds == IndexSpec.IndexCommands(ns, id, metaphone, words)
  {
    var counts := CountWords(words);
    var codes := MetaphoneMap(metaphone, words);
    var keys := codes.keys;
    cmds := [];
    for i := 0 to |keys|
      invariant cmds == IndexSpec.Pairs(ns, id, metaphone, words, keys[..i])
    {
      var w := keys[i];
      assert w in words;
      var pair := [ZAdd(PostingKey(ns, codes.values[w]), counts.values[w], id),
                   ZAdd(ObjectKey(ns, id), counts.values[w], codes.values[w])];
      assert pair == IndexSpec.WordCommands(ns, id, metaphone, words, w);
      IndexSpec.PairsPrefix(ns, id, metaphone, words, keys, i);
      cmds := cmds + pair;
    }
    assert keys[..|keys|] == keys;
  }

  /** The posting keys of the codes of `words`, as `_metaphone_keys` builds them. */
  method PostingKeysOf(ns: string, metaphone: string -> string, words: seq<string>) returns (keys: seq<string>)
    ensures keys == MetaphoneKeys(ns, metaphone, words)
  {
    var codes := MetaphoneList(metaphone, words);
    keys := seq(|codes|, i requires 0 <= i < |codes| => PostingKey(ns, codes[i]));
  }

  /** Send the query pipeline for `keys` and return the second reply, the ids. */
  method SendQuery(store: Store, ns: string, op: SetOp, keys: seq<string>, start: int, stop: int) returns (ids: seq<string>)
    requires |keys| > 0 && store.Valid()
    modifies store
    ensures store.Valid()
    ensures ids == QuerySpec.QueryResult(old(store.sets), op, keys, start, stop)
    ensures store.sets == RunAll(old(store.sets), QuerySpec.QueryCommands(ns, op, keys, start, stop))
    ensures IndexSpec.IndexInvariant(old(store.sets), ns) ==> IndexSpec.IndexInvariant(store.sets, ns)
  {
    QuerySpec.RunQuery(store.sets, ns, op, keys, start, stop);
    if IndexSpec.IndexInvariant(store.sets, ns) {
      QuerySpec.QueryKeepsInvariant(store.sets, ns, op, keys, start, stop);
    }
    var replies := store.Pipeline(QuerySpec.QueryCommands(ns, op, keys, start, stop));
    ids := replies[1].members;
  }

  class Search {
    const key: string
    const store: Store
    const lang: Language

    constructor (key: string, store: Store, lang: Language)
      ensures this.key == key && this.store == store && this.lang == lang
    {
      this.key := key;
      this.store := store;
      this.lang := lang;
    }

    /** The words of `txt` that get indexed or searched: stop words out, the rest stemmed. */
    method Normalized(txt: string) returns (words: seq<string>)
      ensures words == Normalize(lang, txt)
    {
      var kept := StripStopwords(lang.stopWords, Words(txt));
      words := Stem(lang.stem, kept);
    }

    /**
     * Index `txt` under `id`: for each distinct word, the id goes into the
     * posting set of the word's code and the code into the object set of
     * the id, both scored with the word's count.
     */
    method Index(txt: string, id: string) returns (replies: seq<Reply>)
      requires store.Valid()
      modifies store
      ensures store.Valid()
      ensures store.sets == RunAll(old(store.sets), IndexSpec.IndexCommands(key, id, lang.metaphone, Normalize(lang, txt)))
      ensures replies == Replies(old(store.sets), IndexSpec.IndexCommands(key, id, lang.metaphone, Normalize(lang, txt)))
      ensures IndexSpec.IndexInvariant(old(store.sets), key) ==> IndexSpec.IndexInvariant(store.sets, key)
    {
      var words := Normalized(txt);
      var cmds := IndexPipeline(key, id, lang.metaphone, words);
      if IndexSpec.IndexInvariant(store.sets, key) {
        IndexSpec.IndexKeepsInvariant(store.sets, key, id, lang.metaphone, words);
      }
      replies := store.Pipeline(cmds);
    }

    /**
     * Remove `id` from the index: read the codes of its object set, then
     * delete that set and take the id out of each code's posting set.
     */
    method Remove(id: string) returns (replies: seq<Reply>)
      requires store.Valid()
      modifies store
      ensures store.Valid()
      ensures store.sets == RunAll(old(store.sets), IndexSpec.RemoveCommands(key, id, IndexSpec.Constants(old(store.sets), key, id)))
      ensures replies == Replies(old(store.sets), IndexSpec.RemoveCommands(key, id, IndexSpec.Constants(old(store.sets), key, id)))
      ensures IndexSpec.IndexInvariant(old(store.sets), key) ==>
        IndexSpec.IndexInvariant(store.sets, key) &&
        ObjectKey(key, id) !in store.sets &&
        forall c :: Lookup(store.sets, PostingKey(key, c), id) == None
    {
      var read := store.Execute(ZRevRangeByScore(ObjectKey(key, id), 0));
      StepRevRangeByScore(old(store.sets), ObjectKey(key, id), 0);
      var constants := read.members;
      var cmds := [Delete(ObjectKey(key, id))];
      for i := 0 to |constants|
        invariant cmds == IndexSpec.RemoveCommands(key, id, constants[..i])
      {
        cmds := cmds + [ZRem(PostingKey(key, constants[i]), id)];
        assert constants[..i + 1][..i] == constants[..i];
      }
      assert constants[..|constants|] == constants;
      if IndexSpec.IndexInvariant(store.sets, key) {
        IndexSpec.ConstantsReadBack(store.sets, key, id);
        IndexSpec.RemoveKeepsInvariant(store.sets, key, id, constants);
        IndexSpec.RemoveComplete(store.sets, key, id, constants);
      }
      replies := store.Pipeline(cmds);
    }

    /** A query for `txt`, an intersection unless `t` names a union, over the whole ranking. */
    method Query(txt: string, t: Option<string>) returns (q: Query)
      ensures fresh(q)
      ensures q.txt == txt && q.search == this
      ensures q.kind == TypeFor(t) && q.start == 0 && q.stop == -1
    {
      q := new Query(txt, t, this);
    }
  }

  class Query {
    const txt: string
    var kind: SetOp
    var start: int
    var stop: int
    const search: Search

    constructor (txt: string, t: Option<string>, search: Search)
      ensures this.txt == txt && this.search == search
      ensures kind == TypeFor(t) && start == 0 && stop == -1
    {
      this.txt := txt;
      this.search := search;
      kind := TypeFor(if t.Some? && t.value != "" then t else Some("and"));
      start := 0;
      stop := -1;
    }

    /** Choose the combine: "union" or "or" for a union, anything else for an intersection. */
    method Type(t: Option<string>) returns (self: Query)
      modifies this
      ensures self == this
      ensures kind == TypeFor(t) && start == old(start) && stop == old(stop)
    {
      kind := TypeFor(t);
      return this;
    }

    /** Limit the result to the ranks `start` to `stop`, counted from the highest score. */
    method Between(start: int, stop: int) returns (self: Query)
      modifies this
      ensures self == this
      ensures this.start == start && this.stop == stop && kind == old(kind)
    {
      this.start := start;
      this.stop := stop;
      return this;
    }

    /**
     * Run the query.  A text with no words left after normalising sends
     * nothing and finds nothing; otherwise the ids come back as the
     * window of the combined posting sets, highest summed score first.
     */
    method End() returns (ids: seq<string>)
      requires search.store.Valid()
      modifies search.store
      ensures search.store.Valid()
      ensures var keys := MetaphoneKeys(search.key, search.lang.metaphone, Normalize(search.lang, txt));
        if keys == [] then ids == [] && search.store.sets == old(search.store.sets)
        else
          ids == QuerySpec.QueryResult(old(search.store.sets), kind, keys, start, stop) &&
          search.store.sets == RunAll(old(search.store.sets), QuerySpec.QueryCommands(search.key, kind, keys, start, stop))
      ensures IndexSpec.IndexInvariant(old(search.store.sets), search.key) ==> IndexSpec.IndexInvariant(search.store.sets, search.key)
    {
      var words := search.Normalized(txt);
      var keys := PostingKeysOf(search.key, search.lang.metaphone, words);
      if |keys| == 0 {
        return [];
      }
      ids := SendQuery(search.store, search.key, kind, keys, start, stop);
    }
  }
}
