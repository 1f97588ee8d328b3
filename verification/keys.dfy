/** The API-key rotator: a list of active keys consumed round-robin through a cursor, and a list
    of used (cooling-down) keys that is merged back into the active list when the active list runs
    dry or when it reaches the reset threshold. Persisting the two lists after each change is I/O
    and is not modelled. */
module KeyRotation {

  import opened Options

  type Key = string

  /** Number of used keys at which `MarkKeyAsUsed` merges them back into the active list. */
  const ResetThreshold: nat := 30

  datatype KeyPool = KeyPool(apiKeys: seq<Key>, usedKeys: seq<Key>, cursor: nat)
  {
    /** Every key the rotator knows about, active or used, with multiplicity. */
    function Pool(): multiset<Key> {
      multiset(apiKeys + usedKeys)
    }
  }

  /** Index of the first occurrence of `k` (what Python's `list.remove` deletes). */
  function FirstIndex(s: seq<Key>, k: Key): (i: nat)
    requires k in s
    ensures i < |s| && s[i] == k && k !in s[..i]
  {
    if s[0] == k then 0 else 1 + FirstIndex(s[1..], k)
  }

  /** Python's `list.remove(k)`: drops the first occurrence of `k` and keeps the rest in order. */
  function RemoveFirst(s: seq<Key>, k: Key): (r: seq<Key>)
    requires k in s
    ensures |r| == |s| - 1
    ensures multiset(r) == multiset(s) - multiset{k}
    ensures r[..FirstIndex(s, k)] == s[..FirstIndex(s, k)]
    ensures r[FirstIndex(s, k)..] == s[FirstIndex(s, k) + 1..]
  {
    var i := FirstIndex(s, k);
    assert s == s[..i] + [k] + s[i + 1..];
    s[..i] + s[i + 1..]
  }

  /** `reset_used_keys`: the used keys go back to the end of the active list. Nothing is lost or
      duplicated, the active keys keep their positions, and with no used keys it changes nothing. */
  function ResetUsedKeys(p: KeyPool): (r: KeyPool)
    ensures r.Pool() == p.Pool()
    ensures r.usedKeys == []
    ensures |r.apiKeys| == |p.apiKeys| + |p.usedKeys|
    ensures r.apiKeys[..|p.apiKeys|] == p.apiKeys && r.apiKeys[|p.apiKeys|..] == p.usedKeys
    ensures r.cursor == p.cursor
    ensures p.usedKeys == [] ==> r == p
  {
    KeyPool(p.apiKeys + p.usedKeys, [], p.cursor)
  }

  /** `get_next_key`. An empty active list is first refilled from the used list; the cursor wraps
      to 0 when it is past the end. With no key at all Python's indexing raises, which is `None`
      here (the cursor has already been set back to 0 at that point). */
  function GetNextKey(p: KeyPool): (r: (KeyPool, Option<Key>))
    ensures r.0.Pool() == p.Pool()
    ensures r.1.None? <==> p.apiKeys == [] && p.usedKeys == []
    ensures r.1.None? ==> r.0 == p.(cursor := 0)
    ensures p.apiKeys != [] ==> r.0.apiKeys == p.apiKeys && r.0.usedKeys == p.usedKeys
    ensures p.apiKeys == [] ==> r.0.apiKeys == p.usedKeys && r.0.usedKeys == []
    ensures r.1.Some? ==>
      && 1 <= r.0.cursor <= |r.0.apiKeys|
      && r.0.cursor - 1 == (if p.cursor >= |r.0.apiKeys| then 0 else p.cursor)
      && r.1.value == r.0.apiKeys[r.0.cursor - 1]
  {
    var q := if p.apiKeys == [] then ResetUsedKeys(p) else p;
    var i := if q.cursor >= |q.apiKeys| then 0 else q.cursor;
    if q.apiKeys == [] then (q.(cursor := 0), None)
    else (q.(cursor := i + 1), Some(q.apiKeys[i]))
  }

  /** `mark_key_as_used`. An active key moves from the active list to the end of the used list; then
      a used list of `ResetThreshold` keys or more is merged back. */
  function MarkKeyAsUsed(p: KeyPool, k: Key): (r: KeyPool)
    ensures r.Pool() == p.Pool()
    ensures |r.usedKeys| < ResetThreshold
    ensures r.cursor == p.cursor
    ensures k in p.apiKeys && |p.usedKeys| + 1 < ResetThreshold ==>
      r.apiKeys == RemoveFirst(p.apiKeys, k) && r.usedKeys == p.usedKeys + [k]
    ensures k in p.apiKeys && |p.usedKeys| + 1 >= ResetThreshold ==>
      r.apiKeys == RemoveFirst(p.apiKeys, k) + p.usedKeys + [k] && r.usedKeys == []
    ensures k !in p.apiKeys && |p.usedKeys| < ResetThreshold ==> r == p
    ensures k !in p.apiKeys && |p.usedKeys| >= ResetThreshold ==> r == ResetUsedKeys(p)
  {
    var q := if k in p.apiKeys then MoveToUsed(p, k) else p;
    if |q.usedKeys| >= ResetThreshold then ResetUsedKeys(q) else q
  }

  /** The first half of `mark_key_as_used` for an active key. */
  function MoveToUsed(p: KeyPool, k: Key): (q: KeyPool)
    requires k in p.apiKeys
    ensures q.Pool() == p.Pool()
    ensures q.apiKeys == RemoveFirst(p.apiKeys, k) && q.usedKeys == p.usedKeys + [k]
    ensures q.cursor == p.cursor
  {
    var rest := RemoveFirst(p.apiKeys, k);
    MovedKeepsPool(p.apiKeys, p.usedKeys, rest, k);
    KeyPool(rest, p.usedKeys + [k], p.cursor)
  }

  /** Moving one key from the active list to the end of the used list keeps the pool. */
  lemma MovedKeepsPool(active: seq<Key>, used: seq<Key>, rest: seq<Key>, k: Key)
    requires multiset(rest) == multiset(active) - multiset{k} && k in active
    ensures multiset(rest + (used + [k])) == multiset(active + used)
  {
    assert multiset(active) == multiset(rest) + multiset{k};
  }

  /** The outcome of `n` consecutive `get_next_key` calls with no other change in between. */
  function NextKeys(p: KeyPool, n: nat): (KeyPool, seq<Option<Key>>)
    decreases n
  {
    if n == 0 then (p, [])
    else
      var (q, k) := GetNextKey(p);
      var (r, ks) := NextKeys(q, n - 1);
      (r, [k] + ks)
  }

  /** Round robin: from cursor `c`, the next `n` calls return the active keys `c`, `c+1`, ...,
      `c+n-1` in list order, leaving both lists as they were. */
  lemma {:induction false} RoundRobin(p: KeyPool, n: nat)
    requires p.apiKeys != []
    requires p.cursor + n <= |p.apiKeys|
    ensures NextKeys(p, n).0 == p.(cursor := p.cursor + n)
    ensures |NextKeys(p, n).1| == n
    ensures forall i | 0 <= i < n :: NextKeys(p, n).1[i] == Some(p.apiKeys[p.cursor + i])
    decreases n
  {
    if n > 0 {
      var (q, k) := GetNextKey(p);
      assert q == p.(cursor := p.cursor + 1) && k == Some(p.apiKeys[p.cursor]);
      RoundRobin(q, n - 1);
    }
  }

  /** From cursor 0, `|apiKeys|` consecutive calls hand out every active key exactly once, in list
      order, and the following call wraps round to the first key again. */
  lemma FullRotation(p: KeyPool)
    requires p.apiKeys != [] && p.cursor == 0
    ensures |NextKeys(p, |p.apiKeys|).1| == |p.apiKeys|
    ensures forall i | 0 <= i < |p.apiKeys| :: NextKeys(p, |p.apiKeys|).1[i] == Some(p.apiKeys[i])
    ensures GetNextKey(NextKeys(p, |p.apiKeys|).0).1 == Some(p.apiKeys[0])
  {
    RoundRobin(p, |p.apiKeys|);
  }
}
