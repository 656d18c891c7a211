/**
 * The part of Redis the index relies on: a key space of sorted sets, each a
 * map from member to integer score, and the commands pyreds/reds.py sends.
 * A Redis sorted set that loses its last member stops existing, and so does
 * one here.
 */
module SortedSets {
  import opened Wrappers
  import opened Ranking

  type ZSet = map<string, int>
  type Sets = map<string, ZSet>

  /** A missing key reads as an empty sorted set. */
  function Get(s: Sets, k: string): ZSet
  {
    if k in s then s[k] else map[]
  }

  /** The score of member `m` in the sorted set at `k`, if it is there. */
  function Lookup(s: Sets, k: string, m: string): Option<int>
  {
    if m in Get(s, k) then Some(Get(s, k)[m]) else None
  }

  ghost predicate NoEmptySets(s: Sets)
  {
    forall k :: k in s ==> |s[k]| > 0
  }

  /** Store `z` at `k`, deleting the key instead when `z` is empty. */
  function Put(s: Sets, k: string, z: ZSet): (r: Sets)
    ensures Get(r, k) == z
    ensures k in r <==> |z| > 0
    ensures forall k' :: k' != k ==> (k' in r <==> k' in s) && Get(r, k') == Get(s, k')
    ensures NoEmptySets(s) ==> NoEmptySets(r)
  {
    if |z| == 0 then s - {k} else s[k := z]
  }

  /** ZADD with one score/member pair: sets the member's score, replacing any previous one. */
  function ZAddTo(s: Sets, k: string, score: int, m: string): (r: Sets)
    ensures forall k', m' :: Lookup(r, k', m') == if k' == k && m' == m then Some(score) else Lookup(s, k', m')
    ensures forall k' :: k' in r <==> k' in s || k' == k
    ensures NoEmptySets(s) ==> NoEmptySets(r)
  {
    Put(s, k, Get(s, k)[m := score])
  }

  /** ZREM of one member. */
  function ZRemFrom(s: Sets, k: string, m: string): (r: Sets)
    ensures forall k', m' :: Lookup(r, k', m') == if k' == k && m' == m then None else Lookup(s, k', m')
    ensures forall k' :: k' in r ==> k' in s
    ensures NoEmptySets(s) ==> NoEmptySets(r)
  {
    Put(s, k, Get(s, k) - {m})
  }

  // ------------------------------------------------------------ rank windows

  /**
   * Rank `i` of `n` lies in the inclusive Redis window `[start, stop]`,
   * a negative index counting from the end (`-1` is the last rank).
   */
  predicate InWindow(n: nat, start: int, stop: int, i: int)
  {
    0 <= i < n &&
    (if start < 0 then n + start else start) <= i &&
    i <= (if stop < 0 then n + stop else stop)
  }

  /** The ranks `[lo, hi)` that the window `[start, stop]` selects from `n` ranked members. */
  function Span(n: nat, start: int, stop: int): (r: (nat, nat))
    ensures r.0 <= r.1 <= n
    ensures forall i :: r.0 <= i < r.1 <==> InWindow(n, start, stop, i)
  {
    var b := if start < 0 then n + start else start;
    var e := if stop < 0 then n + stop else stop;
    var b := if b < 0 then 0 else b;
    if b > e || b >= n then (0, 0)
    else (b, if e >= n then n else e + 1)
  }

  /** The window (0, -1) selects every rank. */
  lemma SpanWhole(n: nat)
    ensures Span(n, 0, -1) == (0, n)
  {
  }

  /** A window inside the ranks selects exactly `stop - start + 1` of them. */
  lemma SpanInside(n: nat, start: int, stop: int)
    requires 0 <= start <= stop < n
    ensures Span(n, start, stop) == (start, stop + 1)
  {
  }

  /** `(-k, -1)` selects the last `k` ranks. */
  lemma SpanFromEnd(n: nat, k: int)
    requires 1 <= k <= n
    ensures Span(n, -k, -1) == (n - k, n)
  {
  }

  /** ZREVRANGE: the window of the members listed highest rank first. */
  function RevWindow(asc: seq<string>, start: int, stop: int): seq<string>
  {
    var d := Reverse(asc);
    var w := Span(|d|, start, stop);
    d[w.0..w.1]
  }

  /** A window `(start, stop)` with `0 <= start <= stop` is that slice of the whole listing. */
  lemma WindowOfWhole(asc: seq<string>, start: int, stop: int)
    requires 0 <= start <= stop
    ensures var full := RevWindow(asc, 0, -1);
      var r := RevWindow(asc, start, stop);
      |r| == (if start >= |full| then 0 else if stop < |full| then stop - start + 1 else |full| - start) &&
      forall i :: 0 <= i < |r| ==> r[i] == full[start + i]
  {
    var d := Reverse(asc);
    SpanWhole(|d|);
    assert d[0..|d|] == d;
  }

  /** ZREMRANGEBYRANK: drop the members whose ascending ranks fall in the window. */
  function TrimRanks(z: ZSet, asc: seq<string>, start: int, stop: int): ZSet
  {
    var w := Span(|asc|, start, stop);
    var gone := asc[w.0..w.1];
    map m | m in z && m !in gone :: z[m]
  }

  /** The members of `d`, in order, whose score is at least `min`. */
  function AtLeast(z: ZSet, d: seq<string>, min: int): (r: seq<string>)
    requires forall i :: 0 <= i < |d| ==> d[i] in z
    ensures forall x :: x in r <==> x in d && z[x] >= min
  {
    if d == [] then []
    else if z[d[0]] >= min then [d[0]] + AtLeast(z, d[1..], min)
    else AtLeast(z, d[1..], min)
  }

  // ---------------------------------------------------- intersection, union

  datatype SetOp = Inter | Union

  /** Members present in every one of the sets at `keys`. */
  function InterMembers(s: Sets, keys: seq<string>): (r: set<string>)
    requires |keys| > 0
    ensures forall m :: m in r <==> forall i :: 0 <= i < |keys| ==> m in Get(s, keys[i])
  {
    if |keys| == 1 then Get(s, keys[0]).Keys
    else
      var rest := InterMembers(s, keys[1..]);
      assert forall m :: m in rest <==> forall i :: 1 <= i < |keys| ==> m in Get(s, keys[i]) by {
        forall m ensures m in rest <==> forall i :: 1 <= i < |keys| ==> m in Get(s, keys[i]) {
          if forall i :: 1 <= i < |keys| ==> m in Get(s, keys[i]) {
            assert forall i :: 0 <= i < |keys[1..]| ==> m in Get(s, keys[1..][i]);
          }
          if m in rest {
            forall i | 1 <= i < |keys| ensures m in Get(s, keys[i]) {
              assert keys[i] == keys[1..][i - 1];
            }
          }
        }
      }
      Get(s, keys[0]).Keys * rest
  }

  /** Members present in at least one of the sets at `keys`. */
  function UnionMembers(s: Sets, keys: seq<string>): (r: set<string>)
    ensures forall m :: m in r <==> exists i :: 0 <= i < |keys| && m in Get(s, keys[i])
  {
    if keys == [] then {}
    else
      var rest := UnionMembers(s, keys[1..]);
      assert forall m :: m in rest <==> exists i :: 1 <= i < |keys| && m in Get(s, keys[i]) by {
        forall m ensures m in rest <==> exists i :: 1 <= i < |keys| && m in Get(s, keys[i]) {
          if m in rest {
            var i :| 0 <= i < |keys[1..]| && m in Get(s, keys[1..][i]);
            assert keys[1..][i] == keys[i + 1];
          }
          if exists i :: 1 <= i < |keys| && m in Get(s, keys[i]) {
            var i :| 1 <= i < |keys| && m in Get(s, keys[i]);
            assert keys[1..][i - 1] == keys[i];
          }
        }
      }
      Get(s, keys[0]).Keys + rest
  }

  /** The SUM aggregate with every weight 1; a set that lacks `m` adds nothing. */
  function SumScore(s: Sets, keys: seq<string>, m: string): int
  {
    if keys == [] then 0
    else (if m in Get(s, keys[0]) then Get(s, keys[0])[m] else 0) + SumScore(s, keys[1..], m)
  }

  /** What ZINTERSTORE / ZUNIONSTORE compute from the sets at `keys`. */
  function Combine(s: Sets, op: SetOp, keys: seq<string>): ZSet
    requires |keys| > 0
  {
    var members := if op == Inter then InterMembers(s, keys) else UnionMembers(s, keys);
    map m | m in members :: SumScore(s, keys, m)
  }

  // --------------------------------------------------------------- commands

  datatype Command =
    | ZAdd(key: string, score: int, member: string)
    | ZRem(key: string, member: string)
    | Delete(key: string)
    | ZInterStore(dest: string, keys: seq<string>)
    | ZUnionStore(dest: string, keys: seq<string>)
    | ZRevRange(key: string, start: int, stop: int)
    | ZRemRangeByRank(key: string, start: int, stop: int)
    | ZRevRangeByScore(key: string, min: int)  // the maximum is +inf

  datatype Reply = Integer(n: int) | Members(members: seq<string>) | Error(message: string)

  /** The key whose ranking a command needs (its destination for a combine). */
  function Subject(cmd: Command): string
  {
    match cmd
    case ZInterStore(dest, _) => dest
    case ZUnionStore(dest, _) => dest
    case _ => cmd.key
  }

  predicate NeedsRanking(cmd: Command)
  {
    cmd.ZRevRange? || cmd.ZRemRangeByRank? || cmd.ZRevRangeByScore?
  }

  const NoKeysError := "ERR at least 1 input key is needed for ZUNIONSTORE/ZINTERSTORE"

  /** The new key space after `cmd`, given the ascending ranking `asc` of the set at `Subject(cmd)`. */
  function Effect(s: Sets, cmd: Command, asc: seq<string>): Sets
    requires forall i :: 0 <= i < |asc| ==> asc[i] in Get(s, Subject(cmd))
  {
    match cmd
    case ZAdd(k, score, m) => ZAddTo(s, k, score, m)
    case ZRem(k, m) => ZRemFrom(s, k, m)
    case Delete(k) => s - {k}
    case ZInterStore(dest, keys) => if |keys| == 0 then s else Put(s, dest, Combine(s, Inter, keys))
    case ZUnionStore(dest, keys) => if |keys| == 0 then s else Put(s, dest, Combine(s, Union, keys))
    case ZRevRange(_, _, _) => s
    case ZRemRangeByRank(k, start, stop) => Put(s, k, TrimRanks(Get(s, k), asc, start, stop))
    case ZRevRangeByScore(_, _) => s
  }

  /** The reply to `cmd`, given the ascending ranking `asc` of the set at `Subject(cmd)`. */
  function Answer(s: Sets, cmd: Command, asc: seq<string>): Reply
    requires forall i :: 0 <= i < |asc| ==> asc[i] in Get(s, Subject(cmd))
  {
    match cmd
    case ZAdd(k, _, m) => Integer(if m in Get(s, k) then 0 else 1)
    case ZRem(k, m) => Integer(if m in Get(s, k) then 1 else 0)
    case Delete(k) => Integer(if k in s then 1 else 0)
    case ZInterStore(dest, keys) => if |keys| == 0 then Error(NoKeysError) else Integer(|Combine(s, Inter, keys)|)
    case ZUnionStore(dest, keys) => if |keys| == 0 then Error(NoKeysError) else Integer(|Combine(s, Union, keys)|)
    case ZRevRange(_, start, stop) => Members(RevWindow(asc, start, stop))
    case ZRemRangeByRank(_, start, stop) =>
      var w := Span(|asc|, start, stop);
      Integer(w.1 - w.0)
    case ZRevRangeByScore(k, min) =>
      assert Subject(cmd) == k;
      assert forall i :: 0 <= i < |Reverse(asc)| ==> Reverse(asc)[i] == asc[|asc| - 1 - i];
      Members(AtLeast(Get(s, k), Reverse(asc), min))
  }

  ghost function Step(s: Sets, cmd: Command): Sets
  {
    Effect(s, cmd, Ascending(Get(s, Subject(cmd))))
  }

  ghost function ReplyOf(s: Sets, cmd: Command): Reply
  {
    Answer(s, cmd, Ascending(Get(s, Subject(cmd))))
  }

  /** The state after applying `step` to each of `cmds` in turn. */
  ghost function Fold(step: (Sets, Command) -> Sets, s: Sets, cmds: seq<Command>): Sets
    decreases |cmds|
  {
    if cmds == [] then s else Fold(step, step(s, cmds[0]), cmds[1..])
  }

  /** The answers `answer` gives to each of `cmds`, each against the state `step` has reached. */
  ghost function Collect(step: (Sets, Command) -> Sets, answer: (Sets, Command) -> Reply, s: Sets, cmds: seq<Command>): seq<Reply>
    decreases |cmds|
  {
    if cmds == [] then [] else [answer(s, cmds[0])] + Collect(step, answer, step(s, cmds[0]), cmds[1..])
  }

  lemma {:induction false} FoldAppend(step: (Sets, Command) -> Sets, s: Sets, a: seq<Command>, b: seq<Command>)
    ensures Fold(step, s, a + b) == Fold(step, Fold(step, s, a), b)
    decreases |a|
  {
    if a == [] {
      assert a + b == b;
    } else {
      assert (a + b)[0] == a[0] && (a + b)[1..] == a[1..] + b;
      FoldAppend(step, step(s, a[0]), a[1..], b);
    }
  }

  lemma {:induction false} CollectAppend(step: (Sets, Command) -> Sets, answer: (Sets, Command) -> Reply,
                                          s: Sets, a: seq<Command>, b: seq<Command>)
    ensures Collect(step, answer, s, a + b) == Collect(step, answer, s, a) + Collect(step, answer, Fold(step, s, a), b)
    decreases |a|
  {
    if a == [] {
      assert a + b == b;
    } else {
      assert (a + b)[0] == a[0] && (a + b)[1..] == a[1..] + b;
      CollectAppend(step, answer, step(s, a[0]), a[1..], b);
    }
  }

  lemma FoldOne(step: (Sets, Command) -> Sets, answer: (Sets, Command) -> Reply, s: Sets, c: Command)
    ensures Fold(step, s, [c]) == step(s, c)
    ensures Collect(step, answer, s, [c]) == [answer(s, c)]
  {
    assert [c][1..] == [];
    assert Fold(step, s, [c]) == Fold(step, step(s, c), []);
    assert Collect(step, answer, s, [c]) == [answer(s, c)] + Collect(step, answer, step(s, c), []);
  }

  lemma FoldTwo(step: (Sets, Command) -> Sets, answer: (Sets, Command) -> Reply, s: Sets, a: Command, b: Command)
    ensures Fold(step, s, [a, b]) == step(step(s, a), b)
    ensures Collect(step, answer, s, [a, b]) == [answer(s, a), answer(step(s, a), b)]
  {
    assert [a, b] == [a] + [b];
    FoldAppend(step, s, [a], [b]);
    CollectAppend(step, answer, s, [a], [b]);
    FoldOne(step, answer, s, a);
    FoldOne(step, answer, step(s, a), b);
  }

  lemma FoldThree(step: (Sets, Command) -> Sets, answer: (Sets, Command) -> Reply, s: Sets, a: Command, b: Command, c: Command)
    ensures Fold(step, s, [a, b, c]) == step(step(step(s, a), b), c)
    ensures Collect(step, answer, s, [a, b, c]) == [answer(s, a), answer(step(s, a), b), answer(step(step(s, a), b), c)]
  {
    assert [a, b, c] == [a] + [b, c];
    FoldAppend(step, s, [a], [b, c]);
    CollectAppend(step, answer, s, [a], [b, c]);
    FoldOne(step, answer, s, a);
    FoldTwo(step, answer, step(s, a), b, c);
  }

  /** The key space after running `cmds` in order. */
  ghost function RunAll(s: Sets, cmds: seq<Command>): Sets
  {
    Fold(Step, s, cmds)
  }

  /** The replies to `cmds`, in order, as a pipeline returns them. */
  ghost function Replies(s: Sets, cmds: seq<Command>): seq<Reply>
  {
    Collect(Step, ReplyOf, s, cmds)
  }

  lemma RunAllAppend(s: Sets, a: seq<Command>, b: seq<Command>)
    ensures RunAll(s, a + b) == RunAll(RunAll(s, a), b)
    ensures Replies(s, a + b) == Replies(s, a) + Replies(RunAll(s, a), b)
  {
    FoldAppend(Step, s, a, b);
    CollectAppend(Step, ReplyOf, s, a, b);
  }

  lemma RunAllSnoc(s: Sets, a: seq<Command>, c: Command)
    ensures RunAll(s, a + [c]) == Step(RunAll(s, a), c)
    ensures Replies(s, a + [c]) == Replies(s, a) + [ReplyOf(RunAll(s, a), c)]
  {
    RunAllAppend(s, a, [c]);
    FoldOne(Step, ReplyOf, RunAll(s, a), c);
  }

  /** Running one more command of `cmds` extends the run of its prefix by one step. */
  lemma PrefixStep(s: Sets, cmds: seq<Command>, i: nat)
    requires i < |cmds|
    ensures RunAll(s, cmds[..i + 1]) == Step(RunAll(s, cmds[..i]), cmds[i])
    ensures Replies(s, cmds[..i + 1]) == Replies(s, cmds[..i]) + [ReplyOf(RunAll(s, cmds[..i]), cmds[i])]
  {
    assert cmds[..i + 1] == cmds[..i] + [cmds[i]];
    RunAllSnoc(s, cmds[..i], cmds[i]);
  }

  lemma RunTwo(s: Sets, a: Command, b: Command)
    ensures RunAll(s, [a, b]) == Step(Step(s, a), b)
    ensures Replies(s, [a, b]) == [ReplyOf(s, a), ReplyOf(Step(s, a), b)]
  {
    FoldTwo(Step, ReplyOf, s, a, b);
  }

  lemma RunThree(s: Sets, a: Command, b: Command, c: Command)
    ensures RunAll(s, [a, b, c]) == Step(Step(Step(s, a), b), c)
    ensures Replies(s, [a, b, c]) == [ReplyOf(s, a), ReplyOf(Step(s, a), b), ReplyOf(Step(Step(s, a), b), c)]
  {
    FoldThree(Step, ReplyOf, s, a, b, c);
  }

  /** A second Put at the same key replaces the first. */
  lemma PutTwice(s: Sets, k: string, z: ZSet, u: ZSet)
    ensures Put(Put(s, k, z), k, u) == Put(s, k, u)
  {
    if |z| == 0 {
      PutOverDelete(s, k, u);
    } else {
      PutOverStore(s, k, z, u);
    }
  }

  lemma PutOverDelete(s: Sets, k: string, u: ZSet)
    ensures Put(s - {k}, k, u) == Put(s, k, u)
  {
    if |u| == 0 {
      assert (s - {k}) - {k} == s - {k};
    } else {
      assert (s - {k})[k := u] == s[k := u];
    }
  }

  lemma PutOverStore(s: Sets, k: string, z: ZSet, u: ZSet)
    ensures Put(s[k := z], k, u) == Put(s, k, u)
  {
    if |u| == 0 {
      assert s[k := z] - {k} == s - {k};
    } else {
      assert s[k := z][k := u] == s[k := u];
    }
  }

  /** ZREVRANGE changes nothing and replies with the window of the descending ranking. */
  lemma StepRevRange(s: Sets, k: string, start: int, stop: int)
    ensures Step(s, ZRevRange(k, start, stop)) == s
    ensures ReplyOf(s, ZRevRange(k, start, stop)) == Members(RevWindow(Ascending(Get(s, k)), start, stop))
  {
  }

  /** ZREVRANGEBYSCORE changes nothing and replies with a list of members. */
  lemma StepRevRangeByScore(s: Sets, k: string, min: int)
    ensures Step(s, ZRevRangeByScore(k, min)) == s
    ensures ReplyOf(s, ZRevRangeByScore(k, min)).Members?
    ensures forall c :: c in ReplyOf(s, ZRevRangeByScore(k, min)).members <==> c in Get(s, k) && Get(s, k)[c] >= min
  {
    DescendingOrder(Get(s, k));
  }

  /** ZREMRANGEBYRANK drops the window of the ascending ranking. */
  lemma StepTrim(s: Sets, k: string, start: int, stop: int)
    ensures Step(s, ZRemRangeByRank(k, start, stop)) == Put(s, k, TrimRanks(Get(s, k), Ascending(Get(s, k)), start, stop))
  {
  }

  /** No command leaves an empty sorted set behind. */
  lemma StepKeepsNoEmptySets(s: Sets, cmd: Command)
    requires NoEmptySets(s)
    ensures NoEmptySets(Step(s, cmd))
  {
  }

  /** The members of `z` listed once each, never a higher score after a lower one. */
  ghost predicate ListsDescending(z: ZSet, r: seq<string>)
  {
    (forall i :: 0 <= i < |r| ==> r[i] in z) &&
    (forall i, j :: 0 <= i < j < |r| ==> r[i] != r[j] && z[r[i]] >= z[r[j]])
  }

  lemma SliceDescending(z: ZSet, d: seq<string>, lo: nat, hi: nat)
    requires lo <= hi <= |d|
    requires ListsDescending(z, d)
    ensures ListsDescending(z, d[lo..hi])
  {
    var r := d[lo..hi];
    forall i | 0 <= i < |r|
      ensures r[i] in z
    {
      assert r[i] == d[lo + i];
    }
    forall i, j | 0 <= i < j < |r|
      ensures r[i] != r[j] && z[r[i]] >= z[r[j]]
    {
      assert r[i] == d[lo + i] && r[j] == d[lo + j];
    }
  }

  /** ZREVRANGE lists members of the set, each once, never a higher score after a lower one. */
  lemma RevWindowRanked(z: ZSet, start: int, stop: int)
    ensures ListsDescending(z, RevWindow(Ascending(z), start, stop))
  {
    var d := Descending(z);
    DescendingOrder(z);
    assert ListsDescending(z, d);
    var w := Span(|d|, start, stop);
    SliceDescending(z, d, w.0, w.1);
  }

  /** With the window (0, -1) ZREVRANGE returns every member and ZREMRANGEBYRANK empties the set. */
  lemma WholeWindow(z: ZSet)
    ensures forall x :: x in RevWindow(Ascending(z), 0, -1) <==> x in z
    ensures |RevWindow(Ascending(z), 0, -1)| == |z|
    ensures TrimRanks(z, Ascending(z), 0, -1) == map[]
  {
    var a := Ascending(z);
    SpanWhole(|a|);
    assert Reverse(a)[0..|a|] == Reverse(a);
    assert RevWindow(a, 0, -1) == Descending(z);
    DescendingOrder(z);
    TrimEverything(z, a);
  }

  /** Trimming every rank of a listing that covers the set empties it. */
  lemma TrimEverything(z: ZSet, a: seq<string>)
    requires forall m :: m in z ==> m in a
    ensures TrimRanks(z, a, 0, -1) == map[]
  {
    SpanWhole(|a|);
    assert a[0..|a|] == a;
  }

  /** Only the range commands look at the ranking; the others do the same with none. */
  lemma RankingUnused(s: Sets, cmd: Command, asc: seq<string>)
    requires !NeedsRanking(cmd)
    requires forall i :: 0 <= i < |asc| ==> asc[i] in Get(s, Subject(cmd))
    ensures Effect(s, cmd, asc) == Effect(s, cmd, [])
    ensures Answer(s, cmd, asc) == Answer(s, cmd, [])
  {
  }

  // ------------------------------------------------------------------ store

  /** The Redis server: one key space of sorted sets. */
  class Store {
    var sets: Sets

    ghost predicate Valid()
      reads this
    {
      NoEmptySets(sets)
    }

    constructor ()
      ensures Valid() && sets == map[]
    {
      sets := map[];
    }

    /** Run one command. */
    method Execute(cmd: Command) returns (reply: Reply)
      requires Valid()
      modifies this
      ensures Valid()
      ensures sets == Step(old(sets), cmd)
      ensures reply == ReplyOf(old(sets), cmd)
    {
      var asc: seq<string> := [];
      if NeedsRanking(cmd) {
        asc := Rank(Get(sets, Subject(cmd)));
      } else {
        RankingUnused(sets, cmd, Ascending(Get(sets, Subject(cmd))));
      }
      StepKeepsNoEmptySets(sets, cmd);
      reply := Answer(sets, cmd, asc);
      sets := Effect(sets, cmd, asc);
    }

    /** Run `cmds` in order and collect their replies, as `pipeline().execute()` does. */
    method Pipeline(cmds: seq<Command>) returns (replies: seq<Reply>)
      requires Valid()
      modifies this
      ensures Valid()
      ensures sets == RunAll(old(sets), cmds)
      ensures replies == Replies(old(sets), cmds)
    {
      replies := [];
      for i := 0 to |cmds|
        invariant Valid()
        invariant sets == RunAll(old(sets), cmds[..i])
        invariant replies == Replies(old(sets), cmds[..i])
      {
        PrefixStep(old(sets), cmds, i);
        var reply := Execute(cmds[i]);
        replies := replies + [reply];
      }
      assert cmds[..|cmds|] == cmds;
    }
  }
}
