/**
 * Names of the Redis keys one search namespace uses (pyreds/reds.py):
 * a posting set `ns:word:<code>` per phonetic code, a reverse set
 * `ns:object:<id>` per document, and the scratch key `ns + "tmpkey"`
 * that a query combines its posting sets into.
 */
module Keys {

  function PostingKey(ns: string, code: string): string
  {
    ns + ":word:" + code
  }

  function ObjectKey(ns: string, id: string): string
  {
    ns + ":object:" + id
  }

  function TmpKey(ns: string): string
  {
    ns + "tmpkey"
  }

  /** Within one namespace the three kinds of key never collide, and each is determined by its suffix. */
  lemma KeysDistinct(ns: string, c: string, c': string, d: string, d': string)
    ensures PostingKey(ns, c) == PostingKey(ns, c') <==> c == c'
    ensures ObjectKey(ns, d) == ObjectKey(ns, d') <==> d == d'
    ensures PostingKey(ns, c) != ObjectKey(ns, d)
    ensures TmpKey(ns) != PostingKey(ns, c) && TmpKey(ns) != ObjectKey(ns, d)
  {
    var n := |ns|;
    if PostingKey(ns, c) == PostingKey(ns, c') {
      assert c == PostingKey(ns, c)[n + 6..] && c' == PostingKey(ns, c')[n + 6..];
    }
    if ObjectKey(ns, d) == ObjectKey(ns, d') {
      assert d == ObjectKey(ns, d)[n + 8..] && d' == ObjectKey(ns, d')[n + 8..];
    }
    assert PostingKey(ns, c)[n + 1] == 'w' && ObjectKey(ns, d)[n + 1] == 'o';
    assert TmpKey(ns)[n] == 't' && PostingKey(ns, c)[n] == ':' && ObjectKey(ns, d)[n] == ':';
  }
}
