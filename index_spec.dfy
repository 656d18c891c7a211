/**
 * The commands `Search.index` and `Search.remove` send, and what they do to
 * the key space.  Every indexed word `w` with metaphone code `c` gives two
 * entries: the object id in the posting set `ns:word:c`, and `c` in the
 * object set `ns:object:id`, both scored with the number of times `w`
 * occurs in the text.  The two sets mirror each other, and that is what
 * lets `remove` find every posting set an id is in.
 */
module IndexSpec {
  import opened Wrappers
  import opened Keys
  import opened SortedSets
  import opened Ranking
  import Text

  // ------------------------------------------------------------ invariant

  /** Posting sets and object sets record the same (code, id, score) triples. */
  ghost predicate Mirrored(s: Sets, ns: string)
  {
    forall c, d :: Lookup(s, PostingKey(ns, c), d) == Lookup(s, ObjectKey(ns, d), c)
  }

  /** Every score in an object set counts at least one occurrence. */
  ghost predicate PositiveScores(s: Sets, ns: string)
  {
    forall d, c :: Lookup(s, ObjectKey(ns, d), c).Some? ==> Lookup(s, ObjectKey(ns, d), c).value > 0
  }

  ghost predicate IndexInvariant(s: Sets, ns: string)
  {
    NoEmptySets(s) && Mirrored(s, ns) && PositiveScores(s, ns)
  }

  /** An empty Redis database satisfies the invariant. */
  lemma EmptyInvariant(ns: string)
    ensures IndexInvariant(map[], ns)
  {
  }

  /** `o` when it holds a value, `fallback` otherwise. */
  function Over(o: Option<int>, fallback: Option<int>): Option<int>
  {
    if o.Some? then o else fallback
  }

  // ---------------------------------------------------------------- index

  /** The two ZADDs queued for word `w`: the id into the posting set, the code into the object set. */
  function WordCommands(ns: string, id: string, metaphone: string -> string, words: seq<string>, w: string): seq<Command>
  {
    [ZAdd(PostingKey(ns, metaphone(w)), multiset(words)[w], id),
     ZAdd(ObjectKey(ns, id), multiset(words)[w], metaphone(w))]
  }

  /** The pairs of ZADDs for the words `ks`, in order. */
  function Pairs(ns: string, id: string, metaphone: string -> string, words: seq<string>, ks: seq<string>): seq<Command>
    decreases |ks|
  {
    if ks == [] then []
    else Pairs(ns, id, metaphone, words, ks[..|ks| - 1]) + WordCommands(ns, id, metaphone, words, ks[|ks| - 1])
  }

  /** One more word adds its pair at the end. */
  lemma PairsPrefix(ns: string, id: string, metaphone: string -> string, words: seq<string>, ks: seq<string>, i: nat)
    requires i < |ks|
    ensures Pairs(ns, id, metaphone, words, ks[..i + 1])
         == Pairs(ns, id, metaphone, words, ks[..i]) + WordCommands(ns, id, metaphone, words, ks[i])
  {
    assert ks[..i + 1][..i] == ks[..i];
  }

  /** What `index` sends for the normalised words `words`: one pair per distinct word, in first-occurrence order. */
  function IndexCommands(ns: string, id: string, metaphone: string -> string, words: seq<string>): seq<Command>
  {
    Pairs(ns, id, metaphone, words, Text.Distinct(words))
  }

  /** The score the last pair among `ks` that writes member `m` of `k` gives it. */
  function LastWrite(ns: string, id: string, metaphone: string -> string, words: seq<string>, ks: seq<string>, k: string, m: string): Option<int>
    decreases |ks|
  {
    if ks == [] then None
    else
      var w := ks[|ks| - 1];
      if (k == PostingKey(ns, metaphone(w)) && m == id) || (k == ObjectKey(ns, id) && m == metaphone(w))
      then Some(multiset(words)[w])
      else LastWrite(ns, id, metaphone, words, ks[..|ks| - 1], k, m)
  }

  /** Running the pairs for `ks` leaves each member's score as the last pair wrote it, or else untouched. */
  lemma {:induction false} RunPairsAt(s: Sets, ns: string, id: string, metaphone: string -> string, words: seq<string>, ks: seq<string>, k: string, m: string)
    ensures Lookup(RunAll(s, Pairs(ns, id, metaphone, words, ks)), k, m)
         == Over(LastWrite(ns, id, metaphone, words, ks, k, m), Lookup(s, k, m))
    decreases |ks|
  {
    if ks != [] {
      var n := |ks| - 1;
      var p := Pairs(ns, id, metaphone, words, ks[..n]);
      var c := WordCommands(ns, id, metaphone, words, ks[n]);
      RunPairsAt(s, ns, id, metaphone, words, ks[..n], k, m);
      RunAllAppend(s, p, c);
      RunTwo(RunAll(s, p), c[0], c[1]);
    }
  }

  /** No command of `index` leaves an empty set behind. */
  lemma {:induction false} RunPairsNoEmpty(s: Sets, ns: string, id: string, metaphone: string -> string, words: seq<string>, ks: seq<string>)
    requires NoEmptySets(s)
    ensures NoEmptySets(RunAll(s, Pairs(ns, id, metaphone, words, ks)))
    decreases |ks|
  {
    if ks != [] {
      var n := |ks| - 1;
      var p := Pairs(ns, id, metaphone, words, ks[..n]);
      var c := WordCommands(ns, id, metaphone, words, ks[n]);
      RunPairsNoEmpty(s, ns, id, metaphone, words, ks[..n]);
      RunAllAppend(s, p, c);
      RunTwo(RunAll(s, p), c[0], c[1]);
    }
  }

  /** The pair for a word writes the same score to `c`'s posting entry for `d` and to `d`'s object entry for `c`. */
  lemma {:induction false} LastWriteMirror(ns: string, id: string, metaphone: string -> string, words: seq<string>, ks: seq<string>, c: string, d: string)
    ensures LastWrite(ns, id, metaphone, words, ks, PostingKey(ns, c), d)
         == LastWrite(ns, id, metaphone, words, ks, ObjectKey(ns, d), c)
    decreases |ks|
  {
    if ks != [] {
      var w := ks[|ks| - 1];
      KeysDistinct(ns, c, metaphone(w), d, id);
      KeysDistinct(ns, c, c, id, id);
      KeysDistinct(ns, metaphone(w), metaphone(w), d, d);
      LastWriteMirror(ns, id, metaphone, words, ks[..|ks| - 1], c, d);
    }
  }

  /** Every score written counts the occurrences of a word of the text, so it is positive. */
  lemma {:induction false} LastWritePositive(ns: string, id: string, metaphone: string -> string, words: seq<string>, ks: seq<string>, k: string, m: string)
    requires forall i :: 0 <= i < |ks| ==> ks[i] in words
    ensures LastWrite(ns, id, metaphone, words, ks, k, m).Some? ==> LastWrite(ns, id, metaphone, words, ks, k, m).value > 0
    decreases |ks|
  {
    if ks != [] {
      var n := |ks| - 1;
      assert ks[n] in words;
      assert forall i :: 0 <= i < n ==> ks[..n][i] == ks[i];
      LastWritePositive(ns, id, metaphone, words, ks[..n], k, m);
    }
  }

  /** Only the object's own set and its entries in posting sets are written. */
  lemma {:induction false} LastWriteOnlyId(ns: string, id: string, metaphone: string -> string, words: seq<string>, ks: seq<string>, k: string, m: string)
    requires m != id && k != ObjectKey(ns, id)
    ensures LastWrite(ns, id, metaphone, words, ks, k, m) == None
    decreases |ks|
  {
    if ks != [] {
      LastWriteOnlyId(ns, id, metaphone, words, ks[..|ks| - 1], k, m);
    }
  }

  /** Only posting sets and the object's own set are written. */
  lemma {:induction false} LastWriteOnlyPostings(ns: string, id: string, metaphone: string -> string, words: seq<string>, ks: seq<string>, k: string, m: string)
    requires k != ObjectKey(ns, id) && forall c :: k != PostingKey(ns, c)
    ensures LastWrite(ns, id, metaphone, words, ks, k, m) == None
    decreases |ks|
  {
    if ks != [] {
      LastWriteOnlyPostings(ns, id, metaphone, words, ks[..|ks| - 1], k, m);
    }
  }

  /** Every word among `ks` puts the id into the posting set of its code. */
  lemma {:induction false} LastWriteCovers(ns: string, id: string, metaphone: string -> string, words: seq<string>, ks: seq<string>, w: string)
    requires w in ks
    ensures LastWrite(ns, id, metaphone, words, ks, PostingKey(ns, metaphone(w)), id).Some?
    decreases |ks|
  {
    var n := |ks| - 1;
    if ks[n] != w {
      assert w in ks[..n] by {
        var i :| 0 <= i < |ks| && ks[i] == w;
        assert i < n && ks[..n][i] == w;
      }
      LastWriteCovers(ns, id, metaphone, words, ks[..n], w);
    }
  }

  /** When no other word among `ks` shares `w`'s code, the posting score is `w`'s count. */
  lemma {:induction false} LastWriteScore(ns: string, id: string, metaphone: string -> string, words: seq<string>, ks: seq<string>, w: string)
    requires w in ks
    requires forall i :: 0 <= i < |ks| && metaphone(ks[i]) == metaphone(w) ==> ks[i] == w
    ensures LastWrite(ns, id, metaphone, words, ks, PostingKey(ns, metaphone(w)), id) == Some(multiset(words)[w])
    decreases |ks|
  {
    var n := |ks| - 1;
    var v := ks[n];
    KeysDistinct(ns, metaphone(w), metaphone(v), id, id);
    if v != w {
      assert w in ks[..n] by {
        var i :| 0 <= i < |ks| && ks[i] == w;
        assert i < n && ks[..n][i] == w;
      }
      assert forall i :: 0 <= i < n ==> ks[..n][i] == ks[i];
      LastWriteScore(ns, id, metaphone, words, ks[..n], w);
    }
  }

  /** `index` keeps posting sets and object sets mirrored, every score positive and no set empty. */
  lemma IndexKeepsInvariant(s: Sets, ns: string, id: string, metaphone: string -> string, words: seq<string>)
    requires IndexInvariant(s, ns)
    ensures IndexInvariant(RunAll(s, IndexCommands(ns, id, metaphone, words)), ns)
  {
    var ks := Text.Distinct(words);
    var t := RunAll(s, IndexCommands(ns, id, metaphone, words));
    RunPairsNoEmpty(s, ns, id, metaphone, words, ks);
    forall c, d
      ensures Lookup(t, PostingKey(ns, c), d) == Lookup(t, ObjectKey(ns, d), c)
    {
      RunPairsAt(s, ns, id, metaphone, words, ks, PostingKey(ns, c), d);
      RunPairsAt(s, ns, id, metaphone, words, ks, ObjectKey(ns, d), c);
      LastWriteMirror(ns, id, metaphone, words, ks, c, d);
    }
    forall d, c | Lookup(t, ObjectKey(ns, d), c).Some?
      ensures Lookup(t, ObjectKey(ns, d), c).value > 0
    {
      RunPairsAt(s, ns, id, metaphone, words, ks, ObjectKey(ns, d), c);
      LastWritePositive(ns, id, metaphone, words, ks, ObjectKey(ns, d), c);
    }
  }

  /** After `index`, the id is in the posting set of every word's code, and the code in the object set. */
  lemma IndexRecordsEveryWord(s: Sets, ns: string, id: string, metaphone: string -> string, words: seq<string>, w: string)
    requires IndexInvariant(s, ns) && w in words
    ensures var t := RunAll(s, IndexCommands(ns, id, metaphone, words));
      Lookup(t, PostingKey(ns, metaphone(w)), id).Some? &&
      Lookup(t, ObjectKey(ns, id), metaphone(w)) == Lookup(t, PostingKey(ns, metaphone(w)), id)
  {
    var ks := Text.Distinct(words);
    RunPairsAt(s, ns, id, metaphone, words, ks, PostingKey(ns, metaphone(w)), id);
    LastWriteCovers(ns, id, metaphone, words, ks, w);
    IndexKeepsInvariant(s, ns, id, metaphone, words);
  }

  /** A word whose code no other word of the text shares is scored with its number of occurrences. */
  lemma IndexScore(s: Sets, ns: string, id: string, metaphone: string -> string, words: seq<string>, w: string)
    requires w in words
    requires forall v :: v in words && metaphone(v) == metaphone(w) ==> v == w
    ensures Lookup(RunAll(s, IndexCommands(ns, id, metaphone, words)), PostingKey(ns, metaphone(w)), id)
         == Some(multiset(words)[w])
  {
    var ks := Text.Distinct(words);
    RunPairsAt(s, ns, id, metaphone, words, ks, PostingKey(ns, metaphone(w)), id);
    assert forall i :: 0 <= i < |ks| ==> ks[i] in words;
    LastWriteScore(ns, id, metaphone, words, ks, w);
  }

  /** `index` touches no entry but the object's own: other members and other object sets keep their scores. */
  lemma IndexElsewhereUnchanged(s: Sets, ns: string, id: string, metaphone: string -> string, words: seq<string>)
    ensures forall k, m :: m != id && k != ObjectKey(ns, id) ==>
      Lookup(RunAll(s, IndexCommands(ns, id, metaphone, words)), k, m) == Lookup(s, k, m)
  {
    var ks := Text.Distinct(words);
    forall k, m | m != id && k != ObjectKey(ns, id)
      ensures Lookup(RunAll(s, IndexCommands(ns, id, metaphone, words)), k, m) == Lookup(s, k, m)
    {
      RunPairsAt(s, ns, id, metaphone, words, ks, k, m);
      LastWriteOnlyId(ns, id, metaphone, words, ks, k, m);
    }
  }

  /**
   * ZADD replaces a score, so indexing the same text under the same id a
   * second time leaves every score as the first time left it.
   */
  lemma IndexTwiceSameAsOnce(s: Sets, ns: string, id: string, metaphone: string -> string, words: seq<string>)
    ensures var once := RunAll(s, IndexCommands(ns, id, metaphone, words));
      forall k, m :: Lookup(RunAll(once, IndexCommands(ns, id, metaphone, words)), k, m) == Lookup(once, k, m)
  {
    var ks := Text.Distinct(words);
    var once := RunAll(s, IndexCommands(ns, id, metaphone, words));
    forall k, m
      ensures Lookup(RunAll(once, IndexCommands(ns, id, metaphone, words)), k, m) == Lookup(once, k, m)
    {
      RunPairsAt(s, ns, id, metaphone, words, ks, k, m);
      RunPairsAt(once, ns, id, metaphone, words, ks, k, m);
    }
  }

  /**
   * Two words of one text with the same code: the posting score is the
   * count of the later one, not the sum of both.
   */
  lemma SharedCodeLastWins(s: Sets, metaphone: string -> string, words: seq<string>)
    requires metaphone("nite") == "NT" && metaphone("night") == "NT"
    requires words == ["nite", "night", "night"]
    ensures Lookup(RunAll(s, IndexCommands("reds", "1", metaphone, words)), "reds:word:NT", "1") == Some(2)
  {
    var ks := ["nite", "night"];
    DistinctExample();
    assert multiset(words)["night"] == 2;
    assert PostingKey("reds", "NT") == "reds:word:NT";
    assert LastWrite("reds", "1", metaphone, words, ks, "reds:word:NT", "1") == Some(2);
    RunPairsAt(s, "reds", "1", metaphone, words, ks, "reds:word:NT", "1");
  }

  lemma DistinctExample()
    ensures Text.Distinct(["nite", "night", "night"]) == ["nite", "night"]
  {
    var words := ["nite", "night", "night"];
    assert words[..1] == ["nite"];
    assert Text.Distinct(words[..1]) == ["nite"];
    assert words[..2][..1] == words[..1];
    assert Text.Distinct(words[..2]) == ["nite", "night"];
    assert words[..3][..2] == words[..2];
    assert words[..3] == words;
  }

  // --------------------------------------------------------------- remove

  /** The codes `remove` reads back: ZREVRANGEBYSCORE of the object set from +inf down to 0. */
  ghost function Constants(s: Sets, ns: string, id: string): seq<string>
  {
    var r := ReplyOf(s, ZRevRangeByScore(ObjectKey(ns, id), 0));
    if r.Members? then r.members else []
  }

  /** The codes read back are exactly the members of the object set with a non-negative score. */
  lemma ConstantsAre(s: Sets, ns: string, id: string)
    ensures forall c :: c in Constants(s, ns, id) <==>
      Lookup(s, ObjectKey(ns, id), c).Some? && Lookup(s, ObjectKey(ns, id), c).value >= 0
  {
    StepRevRangeByScore(s, ObjectKey(ns, id), 0);
  }

  /** One ZREM per code, taking the id out of that code's posting set. */
  function ZRems(ns: string, id: string, cs: seq<string>): seq<Command>
    decreases |cs|
  {
    if cs == [] then []
    else ZRems(ns, id, cs[..|cs| - 1]) + [ZRem(PostingKey(ns, cs[|cs| - 1]), id)]
  }

  /** What `remove` sends once it has read the codes `cs`: DEL of the object set, then the ZREMs. */
  function RemoveCommands(ns: string, id: string, cs: seq<string>): seq<Command>
  {
    [Delete(ObjectKey(ns, id))] + ZRems(ns, id, cs)
  }

  /** The posting keys of the codes `cs`. */
  function PostingKeys(ns: string, cs: seq<string>): set<string>
  {
    set c | c in cs :: PostingKey(ns, c)
  }

  lemma {:induction false} RunZRemsAt(s: Sets, ns: string, id: string, cs: seq<string>, k: string, m: string)
    ensures Lookup(RunAll(s, ZRems(ns, id, cs)), k, m)
         == if m == id && k in PostingKeys(ns, cs) then None else Lookup(s, k, m)
    decreases |cs|
  {
    if cs != [] {
      var n := |cs| - 1;
      var p := ZRems(ns, id, cs[..n]);
      RunZRemsAt(s, ns, id, cs[..n], k, m);
      RunAllSnoc(s, p, ZRem(PostingKey(ns, cs[n]), id));
      PostingKeysSnoc(ns, cs, k);
    }
  }

  lemma PostingKeysSnoc(ns: string, cs: seq<string>, k: string)
    requires cs != []
    ensures k in PostingKeys(ns, cs) <==> k in PostingKeys(ns, cs[..|cs| - 1]) || k == PostingKey(ns, cs[|cs| - 1])
  {
    var n := |cs| - 1;
    if k in PostingKeys(ns, cs) {
      var c :| c in cs && k == PostingKey(ns, c);
      var i :| 0 <= i < |cs| && cs[i] == c;
      if i < n {
        assert cs[..n][i] == c;
      }
    }
    if k in PostingKeys(ns, cs[..n]) {
      var c :| c in cs[..n] && k == PostingKey(ns, c);
      assert c in cs;
    }
  }

  lemma {:induction false} RunZRemsKeys(s: Sets, ns: string, id: string, cs: seq<string>, k: string)
    ensures k in RunAll(s, ZRems(ns, id, cs)) ==> k in s
    decreases |cs|
  {
    if cs != [] {
      var n := |cs| - 1;
      RunZRemsKeys(s, ns, id, cs[..n], k);
      RunAllSnoc(s, ZRems(ns, id, cs[..n]), ZRem(PostingKey(ns, cs[n]), id));
    }
  }

  lemma {:induction false} RunZRemsNoEmpty(s: Sets, ns: string, id: string, cs: seq<string>)
    requires NoEmptySets(s)
    ensures NoEmptySets(RunAll(s, ZRems(ns, id, cs)))
    decreases |cs|
  {
    if cs != [] {
      var n := |cs| - 1;
      RunZRemsNoEmpty(s, ns, id, cs[..n]);
      RunAllSnoc(s, ZRems(ns, id, cs[..n]), ZRem(PostingKey(ns, cs[n]), id));
    }
  }

  /** The DEL comes first, so the ZREMs work on the key space without the object set. */
  lemma RunRemove(s: Sets, ns: string, id: string, cs: seq<string>)
    ensures RunAll(s, RemoveCommands(ns, id, cs)) == RunAll(s - {ObjectKey(ns, id)}, ZRems(ns, id, cs))
  {
    RunAllAppend(s, [Delete(ObjectKey(ns, id))], ZRems(ns, id, cs));
    assert [Delete(ObjectKey(ns, id))][1..] == [];
  }

  /** What `remove` leaves: every score as before except the object set and the id's posting entries for `cs`. */
  lemma RemoveAt(s: Sets, ns: string, id: string, cs: seq<string>, k: string, m: string)
    ensures Lookup(RunAll(s, RemoveCommands(ns, id, cs)), k, m)
         == if k == ObjectKey(ns, id) || (m == id && k in PostingKeys(ns, cs)) then None else Lookup(s, k, m)
    ensures ObjectKey(ns, id) !in RunAll(s, RemoveCommands(ns, id, cs))
  {
    RunRemove(s, ns, id, cs);
    RunZRemsAt(s - {ObjectKey(ns, id)}, ns, id, cs, k, m);
    RunZRemsKeys(s - {ObjectKey(ns, id)}, ns, id, cs, ObjectKey(ns, id));
  }

  /** `cs` lists exactly the codes in the object set of `id`. */
  ghost predicate ReadsBack(s: Sets, ns: string, id: string, cs: seq<string>)
  {
    forall c :: c in cs <==> Lookup(s, ObjectKey(ns, id), c).Some?
  }

  /** With positive scores, the ZREVRANGEBYSCORE that `remove` sends reads back every code of the object. */
  lemma ConstantsReadBack(s: Sets, ns: string, id: string)
    requires PositiveScores(s, ns)
    ensures ReadsBack(s, ns, id, Constants(s, ns, id))
  {
    ConstantsAre(s, ns, id);
  }

  /**
   * With the invariant, `remove` deletes the object set and takes the id
   * out of every posting set.
   */
  lemma RemoveComplete(s: Sets, ns: string, id: string, cs: seq<string>)
    requires IndexInvariant(s, ns) && ReadsBack(s, ns, id, cs)
    ensures var t := RunAll(s, RemoveCommands(ns, id, cs));
      ObjectKey(ns, id) !in t && forall c :: Lookup(t, PostingKey(ns, c), id) == None
  {
    var t := RunAll(s, RemoveCommands(ns, id, cs));
    RemoveAt(s, ns, id, cs, ObjectKey(ns, id), id);
    forall c
      ensures Lookup(t, PostingKey(ns, c), id) == None
    {
      RemoveAt(s, ns, id, cs, PostingKey(ns, c), id);
      KeysDistinct(ns, c, c, id, id);
      if Lookup(s, PostingKey(ns, c), id).Some? {
        assert c in cs;
      }
    }
  }

  lemma RemoveMirrorAt(s: Sets, ns: string, id: string, cs: seq<string>, c: string, d: string)
    requires IndexInvariant(s, ns) && ReadsBack(s, ns, id, cs)
    ensures var t := RunAll(s, RemoveCommands(ns, id, cs));
      Lookup(t, PostingKey(ns, c), d) == Lookup(t, ObjectKey(ns, d), c)
  {
    var t := RunAll(s, RemoveCommands(ns, id, cs));
    RemoveAt(s, ns, id, cs, ObjectKey(ns, d), c);
    if d == id {
      RemoveComplete(s, ns, id, cs);
      assert Lookup(t, ObjectKey(ns, d), c) == None;
    } else {
      RemoveAt(s, ns, id, cs, PostingKey(ns, c), d);
      KeysDistinct(ns, c, c, d, id);
      KeysDistinct(ns, c, c, id, id);
      assert Lookup(t, PostingKey(ns, c), d) == Lookup(s, PostingKey(ns, c), d);
      assert ObjectKey(ns, d) !in PostingKeys(ns, cs) by {
        forall c' | c' in cs
          ensures PostingKey(ns, c') != ObjectKey(ns, d)
        {
          KeysDistinct(ns, c', c', d, d);
        }
      }
      assert Lookup(t, ObjectKey(ns, d), c) == Lookup(s, ObjectKey(ns, d), c);
    }
  }

  /** `remove` keeps posting sets and object sets mirrored, every score positive and no set empty. */
  lemma RemoveKeepsInvariant(s: Sets, ns: string, id: string, cs: seq<string>)
    requires IndexInvariant(s, ns) && ReadsBack(s, ns, id, cs)
    ensures IndexInvariant(RunAll(s, RemoveCommands(ns, id, cs)), ns)
  {
    var t := RunAll(s, RemoveCommands(ns, id, cs));
    RunRemove(s, ns, id, cs);
    RunZRemsNoEmpty(s - {ObjectKey(ns, id)}, ns, id, cs);
    forall c, d
      ensures Lookup(t, PostingKey(ns, c), d) == Lookup(t, ObjectKey(ns, d), c)
    {
      RemoveMirrorAt(s, ns, id, cs, c, d);
    }
    forall d, c | Lookup(t, ObjectKey(ns, d), c).Some?
      ensures Lookup(t, ObjectKey(ns, d), c).value > 0
    {
      RemoveAt(s, ns, id, cs, ObjectKey(ns, d), c);
    }
  }

  /** `remove` leaves every member other than the id, outside the object's own set, as it was. */
  lemma RemoveElsewhereUnchanged(s: Sets, ns: string, id: string, cs: seq<string>)
    ensures forall k, m :: m != id && k != ObjectKey(ns, id) ==>
      Lookup(RunAll(s, RemoveCommands(ns, id, cs)), k, m) == Lookup(s, k, m)
  {
    forall k, m | m != id && k != ObjectKey(ns, id)
      ensures Lookup(RunAll(s, RemoveCommands(ns, id, cs)), k, m) == Lookup(s, k, m)
    {
      RemoveAt(s, ns, id, cs, k, m);
    }
  }

  /** An id that is in no set: indexing it and removing it again gives back every score as it was. */
  lemma RemoveUndoesIndex(s: Sets, ns: string, id: string, metaphone: string -> string, words: seq<string>, cs: seq<string>)
    requires IndexInvariant(s, ns)
    requires ObjectKey(ns, id) !in s
    requires ReadsBack(RunAll(s, IndexCommands(ns, id, metaphone, words)), ns, id, cs)
    ensures var t := RunAll(s, IndexCommands(ns, id, metaphone, words));
      forall k, m :: Lookup(RunAll(t, RemoveCommands(ns, id, cs)), k, m) == Lookup(s, k, m)
  {
    var ks := Text.Distinct(words);
    var t := RunAll(s, IndexCommands(ns, id, metaphone, words));
    var u := RunAll(t, RemoveCommands(ns, id, cs));
    IndexKeepsInvariant(s, ns, id, metaphone, words);
    RemoveComplete(t, ns, id, cs);
    forall k, m
      ensures Lookup(u, k, m) == Lookup(s, k, m)
    {
      RunPairsAt(s, ns, id, metaphone, words, ks, k, m);
      RemoveAt(t, ns, id, cs, k, m);
      if k == ObjectKey(ns, id) {
      } else if m == id && exists c :: k == PostingKey(ns, c) {
        var c :| k == PostingKey(ns, c);
        assert Lookup(s, ObjectKey(ns, id), c) == None;
      } else if m == id {
        LastWriteOnlyPostings(ns, id, metaphone, words, ks, k, m);
        assert k !in PostingKeys(ns, cs);
      } else {
        LastWriteOnlyId(ns, id, metaphone, words, ks, k, m);
      }
    }
  }
}
