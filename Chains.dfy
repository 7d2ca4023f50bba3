/** The separate-chaining hash table that the source writes out once per
    record type (`student_link**`, `teacher_link**`, `email_link**`,
    `classroom_link**`, `quiz_link**`, `quiz_result_link**`): a fixed array of
    chain heads, FNV-1a bucket selection, insertion at the head of the chain,
    first-match lookup, no rehashing and no deletion. A chain is a sequence
    whose element 0 is the head node. */
module Chains {
  import opened Wrappers
  import Fnv

  /** Index of the first record of `chain` whose key is k, or |chain| when
      there is none: where the source's `while(node)` walk stops. */
  function FirstIndex<R>(chain: seq<R>, keyOf: R -> string, k: string): (j: nat)
    ensures j <= |chain|
    ensures forall m :: 0 <= m < j ==> keyOf(chain[m]) != k
    ensures j < |chain| ==> keyOf(chain[j]) == k
  {
    if |chain| == 0 then 0
    else if keyOf(chain[0]) == k then 0
    else 1 + FirstIndex(chain[1..], keyOf, k)
  }

  /** The record a chain walk returns: the first one with key k, or null. */
  function FirstMatch<R>(chain: seq<R>, keyOf: R -> string, k: string): Option<R> {
    var j := FirstIndex(chain, keyOf, k);
    if j < |chain| then Some(chain[j]) else None
  }

  /** Index of the last record of s whose key is k, or |s| when there is none. */
  function LastIndex<R>(s: seq<R>, keyOf: R -> string, k: string): (j: nat)
    ensures j <= |s|
    ensures j < |s| ==> keyOf(s[j]) == k && forall m :: j < m < |s| ==> keyOf(s[m]) != k
    ensures j == |s| ==> forall m :: 0 <= m < |s| ==> keyOf(s[m]) != k
  {
    if |s| == 0 then 0
    else if keyOf(s[|s| - 1]) == k then |s| - 1
    else
      var j := LastIndex(s[..|s| - 1], keyOf, k);
      if j < |s| - 1 then j else |s|
  }

  /** The last record of s with key k: what a table holds at the head for k
      after the records of s were inserted one by one, in order. */
  function LastMatch<R>(s: seq<R>, keyOf: R -> string, k: string): Option<R> {
    var j := LastIndex(s, keyOf, k);
    if j < |s| then Some(s[j]) else None
  }

  /** The chain walk's index is the unique least index with key k. */
  lemma FirstIndexIs<R>(chain: seq<R>, keyOf: R -> string, k: string, j: nat)
    requires j <= |chain|
    requires forall m :: 0 <= m < j ==> keyOf(chain[m]) != k
    requires j < |chain| ==> keyOf(chain[j]) == k
    ensures FirstIndex(chain, keyOf, k) == j
  {
  }

  /** The index of the last record with key k is the unique index with key k
      and no later record with key k. */
  lemma LastIndexIs<R>(s: seq<R>, keyOf: R -> string, k: string, j: nat)
    requires j <= |s|
    requires j < |s| ==> keyOf(s[j]) == k
    requires forall m :: j < m < |s| ==> keyOf(s[m]) != k
    requires j == |s| ==> forall m :: 0 <= m < |s| ==> keyOf(s[m]) != k
    ensures LastIndex(s, keyOf, k) == j
  {
  }

  /** A lookup fails exactly when no record of the chain has key k, and a
      successful one returns the earliest record with that key. */
  lemma FirstMatchSpec<R>(chain: seq<R>, keyOf: R -> string, k: string)
    ensures FirstMatch(chain, keyOf, k).None? <==> forall m :: 0 <= m < |chain| ==> keyOf(chain[m]) != k
    ensures FirstMatch(chain, keyOf, k).Some? ==>
      keyOf(FirstMatch(chain, keyOf, k).value) == k && FirstMatch(chain, keyOf, k).value in chain
  {
  }

  /** Head insertion: the new record shadows every older record with its key
      and leaves every other key's lookup as it was. */
  lemma HeadInsert<R>(chain: seq<R>, keyOf: R -> string, r: R, k: string)
    ensures FirstMatch([r] + chain, keyOf, k) ==
      if keyOf(r) == k then Some(r) else FirstMatch(chain, keyOf, k)
  {
    if keyOf(r) != k {
      FirstIndexIs([r] + chain, keyOf, k, 1 + FirstIndex(chain, keyOf, k));
    }
  }

  /** Writing through the pointer a lookup returned: replacing the first record
      with key k by another record with key k leaves every other key's lookup
      unchanged. */
  lemma ReplaceAtFirst<R>(chain: seq<R>, keyOf: R -> string, k: string, r: R, k': string)
    requires FirstIndex(chain, keyOf, k) < |chain|
    requires keyOf(r) == k
    ensures FirstMatch(chain[FirstIndex(chain, keyOf, k) := r], keyOf, k) == Some(r)
    ensures k' != k ==>
      FirstMatch(chain[FirstIndex(chain, keyOf, k) := r], keyOf, k') == FirstMatch(chain, keyOf, k')
  {
    var j := FirstIndex(chain, keyOf, k);
    var c := chain[j := r];
    FirstIndexIs(c, keyOf, k, j);
    if k' != k {
      FirstIndexIs(c, keyOf, k', FirstIndex(chain, keyOf, k'));
    }
  }

  /** Appending one record to a sequence: it becomes the last match for its key. */
  lemma LastMatchSnoc<R>(s: seq<R>, keyOf: R -> string, r: R, k: string)
    ensures LastMatch(s + [r], keyOf, k) == if keyOf(r) == k then Some(r) else LastMatch(s, keyOf, k)
  {
    assert (s + [r])[..|s|] == s;
  }

  /** The last match in x + y is y's when y has one, and x's otherwise. */
  lemma LastMatchAppend<R>(x: seq<R>, y: seq<R>, keyOf: R -> string, k: string)
    ensures LastMatch(x + y, keyOf, k) ==
      if LastMatch(y, keyOf, k).Some? then LastMatch(y, keyOf, k) else LastMatch(x, keyOf, k)
  {
    var jy := LastIndex(y, keyOf, k);
    var jx := LastIndex(x, keyOf, k);
    if jy < |y| {
      LastIndexIs(x + y, keyOf, k, |x| + jy);
    } else if jx < |x| {
      LastIndexIs(x + y, keyOf, k, jx);
    } else {
      LastIndexIs(x + y, keyOf, k, |x + y|);
    }
  }

  /** No two records of s have key k. */
  ghost predicate AtMostOnce<R>(s: seq<R>, keyOf: R -> string, k: string) {
    forall i, j :: 0 <= i < |s| && 0 <= j < |s| && keyOf(s[i]) == k && keyOf(s[j]) == k ==> i == j
  }

  /** When k occurs at most once, the first and the last match agree. */
  lemma {:induction false} UniqueKeyFirstIsLast<R>(s: seq<R>, keyOf: R -> string, k: string)
    requires AtMostOnce(s, keyOf, k)
    ensures LastMatch(s, keyOf, k) == FirstMatch(s, keyOf, k)
  {
    var f := FirstIndex(s, keyOf, k);
    var l := LastIndex(s, keyOf, k);
    if f < |s| && l < |s| {
      assert f == l;
    }
  }

  /** Concatenation of the chains, bucket 0 first, each chain head to tail:
      the order in which the save loops emit records. */
  function Flatten<R>(bs: seq<seq<R>>): seq<R> {
    if |bs| == 0 then [] else Flatten(bs[..|bs| - 1]) + bs[|bs| - 1]
  }

  /** A scan that has emitted d and then chain[..j] emits chain[j] next. */
  lemma ScanStep<R>(d: seq<R>, chain: seq<R>, j: nat)
    requires j < |chain|
    ensures d + chain[..j + 1] == (d + chain[..j]) + [chain[j]]
  {
    assert chain[..j + 1] == chain[..j] + [chain[j]];
  }

  /** Chains that are all empty hold no record. */
  lemma {:induction false} FlattenEmpty<R>(bs: seq<seq<R>>)
    requires forall i :: 0 <= i < |bs| ==> bs[i] == []
    ensures Flatten(bs) == []
  {
    if |bs| > 0 {
      FlattenEmpty(bs[..|bs| - 1]);
    }
  }

  /** Every stored record is emitted: r is in the dump iff some chain holds it. */
  lemma {:induction false} FlattenMember<R>(bs: seq<seq<R>>, r: R)
    ensures r in Flatten(bs) <==> exists i :: 0 <= i < |bs| && r in bs[i]
  {
    if |bs| > 0 {
      var n := |bs| - 1;
      FlattenMember(bs[..n], r);
      if r in Flatten(bs[..n]) {
        var i :| 0 <= i < n && r in bs[..n][i];
        assert r in bs[i];
      }
      if exists i :: 0 <= i < |bs| && r in bs[i] {
        var i :| 0 <= i < |bs| && r in bs[i];
        if i < n {
          assert r in bs[..n][i];
        }
      }
    }
  }

  /** Every stored record is emitted exactly once: replacing chain i by c
      changes the dump by exactly the records of the old and the new chain. */
  lemma {:induction false} FlattenUpdate<R>(bs: seq<seq<R>>, i: nat, c: seq<R>)
    requires i < |bs|
    ensures multiset(Flatten(bs[i := c])) + multiset(bs[i]) == multiset(Flatten(bs)) + multiset(c)
    ensures |Flatten(bs[i := c])| + |bs[i]| == |Flatten(bs)| + |c|
  {
    var n := |bs| - 1;
    var bs' := bs[i := c];
    assert Flatten(bs) == Flatten(bs[..n]) + bs[n];
    assert Flatten(bs') == Flatten(bs'[..n]) + bs'[n];
    if i == n {
      assert bs'[..n] == bs[..n];
    } else {
      assert bs'[..n] == bs[..n][i := c];
      FlattenUpdate(bs[..n], i, c);
      assert bs[..n][i] == bs[i];
      assert bs'[n] == bs[n];
      var a, a', d := multiset(Flatten(bs[..n])), multiset(Flatten(bs[..n][i := c])), multiset(bs[n]);
      assert multiset(Flatten(bs')) == a' + d;
      assert multiset(Flatten(bs)) == a + d;
      assert a' + multiset(bs[i]) == a + multiset(c);
      assert a' + d + multiset(bs[i]) == (a' + multiset(bs[i])) + d;
      assert a + d + multiset(c) == (a + multiset(c)) + d;
    }
  }

  /** No record of s has key k. */
  ghost predicate NoKey<R>(s: seq<R>, keyOf: R -> string, k: string) {
    forall m :: 0 <= m < |s| ==> keyOf(s[m]) != k
  }

  /** Matches in x + y when x holds no record with key k: y's. */
  lemma MatchesAppendLeft<R>(x: seq<R>, y: seq<R>, keyOf: R -> string, k: string)
    requires NoKey(x, keyOf, k)
    ensures FirstMatch(x + y, keyOf, k) == FirstMatch(y, keyOf, k)
    ensures LastMatch(x + y, keyOf, k) == LastMatch(y, keyOf, k)
  {
    var f := FirstIndex(y, keyOf, k);
    FirstIndexIs(x + y, keyOf, k, |x| + f);
    var l := LastIndex(y, keyOf, k);
    LastIndexIs(x + y, keyOf, k, if l < |y| then |x| + l else |x + y|);
  }

  /** Matches in x + y when y holds no record with key k: x's. */
  lemma MatchesAppendRight<R>(x: seq<R>, y: seq<R>, keyOf: R -> string, k: string)
    requires NoKey(y, keyOf, k)
    ensures FirstMatch(x + y, keyOf, k) == FirstMatch(x, keyOf, k)
    ensures LastMatch(x + y, keyOf, k) == LastMatch(x, keyOf, k)
  {
    var f := FirstIndex(x, keyOf, k);
    FirstIndexIs(x + y, keyOf, k, if f < |x| then f else |x + y|);
    var l := LastIndex(x, keyOf, k);
    LastIndexIs(x + y, keyOf, k, if l < |x| then l else |x + y|);
  }

  /** Chains without key k flatten to a dump without key k. */
  lemma {:induction false} FlattenNoKey<R>(bs: seq<seq<R>>, keyOf: R -> string, k: string)
    requires forall i :: 0 <= i < |bs| ==> NoKey(bs[i], keyOf, k)
    ensures NoKey(Flatten(bs), keyOf, k)
  {
    if |bs| > 0 {
      var n := |bs| - 1;
      FlattenNoKey(bs[..n], keyOf, k);
      var s := Flatten(bs);
      assert s == Flatten(bs[..n]) + bs[n];
      assert NoKey(bs[n], keyOf, k);
    }
  }

  /** If no chain but chain b holds key k, scanning the whole dump finds the
      same first and last record for k as walking chain b alone. */
  lemma {:induction false} FlattenMatches<R>(bs: seq<seq<R>>, keyOf: R -> string, k: string, b: nat)
    requires b < |bs|
    requires forall i :: 0 <= i < |bs| && i != b ==> NoKey(bs[i], keyOf, k)
    ensures FirstMatch(Flatten(bs), keyOf, k) == FirstMatch(bs[b], keyOf, k)
    ensures LastMatch(Flatten(bs), keyOf, k) == LastMatch(bs[b], keyOf, k)
  {
    var n := |bs| - 1;
    var pre := Flatten(bs[..n]);
    assert Flatten(bs) == pre + bs[n];
    if b == n {
      FlattenNoKey(bs[..n], keyOf, k);
      MatchesAppendLeft(pre, bs[n], keyOf, k);
    } else {
      FlattenMatches(bs[..n], keyOf, k, b);
      assert NoKey(bs[n], keyOf, k);
      MatchesAppendRight(pre, bs[n], keyOf, k);
    }
  }

  /** Records sit in the bucket their key hashes to. */
  ghost predicate Layout<R>(bs: seq<seq<R>>, keyOf: R -> string) {
    0 < |bs| &&
    forall i, j :: 0 <= i < |bs| && 0 <= j < |bs[i]| ==> Fnv.Bucket(keyOf(bs[i][j]), |bs|) == i
  }

  /** Adding the same multiset to both sides can be undone. */
  lemma MultisetCancel<T>(a: multiset<T>, b: multiset<T>, x: multiset<T>)
    requires a + x == b + x
    ensures a == b
  {
    forall t ensures a[t] == b[t] {
      assert (a + x)[t] == (b + x)[t];
    }
  }

  /** Head insertion into the bucket of the new record's key keeps the layout. */
  lemma LayoutHeadInsert<R>(bs: seq<seq<R>>, keyOf: R -> string, r: R)
    requires Layout(bs, keyOf)
    ensures Layout(bs[Fnv.Bucket(keyOf(r), |bs|) := [r] + bs[Fnv.Bucket(keyOf(r), |bs|)]], keyOf)
  {
    var b := Fnv.Bucket(keyOf(r), |bs|);
    var bs' := bs[b := [r] + bs[b]];
    forall i, j | 0 <= i < |bs'| && 0 <= j < |bs'[i]| ensures Fnv.Bucket(keyOf(bs'[i][j]), |bs'|) == i {
      if i == b && j > 0 {
        assert bs'[i][j] == bs[b][j - 1];
      }
    }
  }

  /** Replacing a record by one with the same key keeps the layout. */
  lemma LayoutReplace<R>(bs: seq<seq<R>>, keyOf: R -> string, b: nat, j: nat, r: R)
    requires Layout(bs, keyOf)
    requires b < |bs| && j < |bs[b]| && keyOf(r) == keyOf(bs[b][j])
    ensures Layout(bs[b := bs[b][j := r]], keyOf)
  {
  }

/** What a lookup of k finds in the chains bs. */
  function LookupIn<R>(bs: seq<seq<R>>, keyOf: R -> string, k: string): Option<R>
    requires 0 < |bs|
  {
    FirstMatch(bs[Fnv.Bucket(k, |bs|)], keyOf, k)
  }

  /** The chains after r is put at the head of the chain its key hashes to. */
  function HeadInserted<R>(bs: seq<seq<R>>, keyOf: R -> string, r: R): (bs': seq<seq<R>>)
    requires 0 < |bs|
    ensures |bs'| == |bs|
  {
    var b := Fnv.Bucket(keyOf(r), |bs|);
    bs[b := [r] + bs[b]]
  }

  /** After a head insertion, r's key finds r and every other key finds
      what it found before. */
  lemma HeadInsertedLookup<R>(bs: seq<seq<R>>, keyOf: R -> string, r: R, k: string)
    requires 0 < |bs|
    ensures LookupIn(HeadInserted(bs, keyOf, r), keyOf, k) ==
      if keyOf(r) == k then Some(r) else LookupIn(bs, keyOf, k)
  {
    var b := Fnv.Bucket(keyOf(r), |bs|);
    if Fnv.Bucket(k, |bs|) == b {
      HeadInsert(bs[b], keyOf, r, k);
    }
  }

  /** A head insertion adds exactly r to the stored records. */
  lemma HeadInsertedMultiset<R>(bs: seq<seq<R>>, keyOf: R -> string, r: R)
    requires 0 < |bs|
    ensures multiset(Flatten(HeadInserted(bs, keyOf, r))) == multiset(Flatten(bs)) + multiset{r}
  {
    var b := Fnv.Bucket(keyOf(r), |bs|);
    var chain := [r] + bs[b];
    FlattenUpdate(bs, b, chain);
    assert multiset(chain) == multiset{r} + multiset(bs[b]);
    assert multiset(Flatten(bs)) + multiset(chain) == (multiset(Flatten(bs)) + multiset{r}) + multiset(bs[b]);
    MultisetCancel(multiset(Flatten(bs[b := chain])), multiset(Flatten(bs)) + multiset{r}, multiset(bs[b]));
  }

  /** No collision check: inserting a record whose key is already present
      makes the new record the one found, while the old one stays stored. */
  lemma {:induction false} HeadInsertedShadows<R>(bs: seq<seq<R>>, keyOf: R -> string, r: R)
    requires 0 < |bs| && LookupIn(bs, keyOf, keyOf(r)).Some?
    ensures LookupIn(HeadInserted(bs, keyOf, r), keyOf, keyOf(r)) == Some(r)
    ensures LookupIn(bs, keyOf, keyOf(r)).value in Flatten(HeadInserted(bs, keyOf, r))
  {
    var b := Fnv.Bucket(keyOf(r), |bs|);
    var o := LookupIn(bs, keyOf, keyOf(r)).value;
    HeadInsertedLookup(bs, keyOf, r, keyOf(r));
    FirstMatchSpec(bs[b], keyOf, keyOf(r));
    FlattenMember(bs, o);
    HeadInsertedMultiset(bs, keyOf, r);
    var before, after := multiset(Flatten(bs)), multiset(Flatten(HeadInserted(bs, keyOf, r)));
    assert before[o] > 0;
    assert after[o] > 0;
  }

  /** The chains after every record of s is head-inserted, in order. */
  function InsertedAll<R>(bs: seq<seq<R>>, keyOf: R -> string, s: seq<R>): (bs': seq<seq<R>>)
    requires 0 < |bs|
    ensures |bs'| == |bs|
  {
    if |s| == 0 then bs else HeadInserted(InsertedAll(bs, keyOf, s[..|s| - 1]), keyOf, s[|s| - 1])
  }

  lemma {:induction false} InsertedAllLayout<R>(bs: seq<seq<R>>, keyOf: R -> string, s: seq<R>)
    requires Layout(bs, keyOf)
    ensures Layout(InsertedAll(bs, keyOf, s), keyOf)
  {
    if |s| > 0 {
      InsertedAllLayout(bs, keyOf, s[..|s| - 1]);
      LayoutHeadInsert(InsertedAll(bs, keyOf, s[..|s| - 1]), keyOf, s[|s| - 1]);
    }
  }

  /** After inserting s, a key held by a record of s finds the last such
      record (the newest head), and any other key finds what it found before. */
  lemma {:induction false} InsertedAllLookup<R>(bs: seq<seq<R>>, keyOf: R -> string, s: seq<R>, k: string)
    requires 0 < |bs|
    ensures LookupIn(InsertedAll(bs, keyOf, s), keyOf, k) ==
      if LastMatch(s, keyOf, k).Some? then LastMatch(s, keyOf, k) else LookupIn(bs, keyOf, k)
  {
    if |s| > 0 {
      var p := s[..|s| - 1];
      InsertedAllLookup(bs, keyOf, p, k);
      HeadInsertedLookup(InsertedAll(bs, keyOf, p), keyOf, s[|s| - 1], k);
      assert s == p + [s[|s| - 1]];
      LastMatchSnoc(p, keyOf, s[|s| - 1], k);
    }
  }

  /** Inserting s adds exactly the records of s. */
  lemma {:induction false} InsertedAllMultiset<R>(bs: seq<seq<R>>, keyOf: R -> string, s: seq<R>)
    requires 0 < |bs|
    ensures multiset(Flatten(InsertedAll(bs, keyOf, s))) == multiset(Flatten(bs)) + multiset(s)
  {
    if |s| > 0 {
      var p, x := s[..|s| - 1], s[|s| - 1];
      var prev := InsertedAll(bs, keyOf, p);
      assert InsertedAll(bs, keyOf, s) == HeadInserted(prev, keyOf, x);
      InsertedAllMultiset(bs, keyOf, p);
      HeadInsertedMultiset(prev, keyOf, x);
      var m0, mp, mx := multiset(Flatten(bs)), multiset(p), multiset{x};
      assert s == p + [x];
      assert multiset(s) == mp + mx;
      assert m0 + mp + mx == m0 + (mp + mx);
    }
  }

  /** The chains after the first record with key k in k's chain, which
      must exist, is overwritten by r. */
  function FirstReplaced<R>(bs: seq<seq<R>>, keyOf: R -> string, k: string, r: R): (bs': seq<seq<R>>)
    requires 0 < |bs| && LookupIn(bs, keyOf, k).Some?
    ensures |bs'| == |bs|
  {
    var b := Fnv.Bucket(k, |bs|);
    bs[b := bs[b][FirstIndex(bs[b], keyOf, k) := r]]
  }

  /** Overwriting the record a lookup found with one of the same key: k finds
      the new record and every other key finds what it found before. */
  lemma FirstReplacedLookup<R>(bs: seq<seq<R>>, keyOf: R -> string, k: string, r: R, k': string)
    requires 0 < |bs| && LookupIn(bs, keyOf, k).Some? && keyOf(r) == k
    ensures LookupIn(FirstReplaced(bs, keyOf, k, r), keyOf, k') ==
      if k' == k then Some(r) else LookupIn(bs, keyOf, k')
  {
    var b := Fnv.Bucket(k, |bs|);
    if Fnv.Bucket(k', |bs|) == b {
      ReplaceAtFirst(bs[b], keyOf, k, r, k');
    }
  }

  /** Overwriting swaps exactly the found record for r among the stored records. */
  lemma FirstReplacedMultiset<R>(bs: seq<seq<R>>, keyOf: R -> string, k: string, r: R)
    requires 0 < |bs| && LookupIn(bs, keyOf, k).Some?
    ensures multiset(Flatten(FirstReplaced(bs, keyOf, k, r))) + multiset{LookupIn(bs, keyOf, k).value} ==
      multiset(Flatten(bs)) + multiset{r}
  {
    var b := Fnv.Bucket(k, |bs|);
    var j := FirstIndex(bs[b], keyOf, k);
    var c := bs[b][j := r];
    FlattenUpdate(bs, b, c);
    UpdateMultiset(bs[b], j, r);
    MultisetSwap(multiset(Flatten(bs[b := c])), multiset(Flatten(bs)), multiset(bs[b]), multiset(c), multiset{bs[b][j]}, multiset{r});
  }

  /** Multiset algebra for a swap: if a + x == b + y and y + o == x + n then
      a + o == b + n. */
  lemma MultisetSwap<T>(a: multiset<T>, b: multiset<T>, x: multiset<T>, y: multiset<T>, o: multiset<T>, n: multiset<T>)
    requires a + x == b + y && y + o == x + n
    ensures a + o == b + n
  {
    assert (a + o) + x == (a + x) + o;
    assert (b + y) + o == b + (y + o);
    assert b + (x + n) == (b + n) + x;
    MultisetCancel(a + o, b + n, x);
  }

  /** Overwriting element j of a sequence swaps that element for r in its multiset. */
  lemma UpdateMultiset<R>(c: seq<R>, j: nat, r: R)
    requires j < |c|
    ensures multiset(c[j := r]) + multiset{c[j]} == multiset(c) + multiset{r}
  {
    assert c == c[..j] + [c[j]] + c[j + 1..];
    assert c[j := r] == c[..j] + [r] + c[j + 1..];
  }

  /** Overwriting with a record of the same key keeps every record in the
      bucket its key hashes to. */
  lemma FirstReplacedLayout<R>(bs: seq<seq<R>>, keyOf: R -> string, k: string, r: R)
    requires Layout(bs, keyOf) && LookupIn(bs, keyOf, k).Some? && keyOf(r) == k
    ensures Layout(FirstReplaced(bs, keyOf, k, r), keyOf)
  {
    var b := Fnv.Bucket(k, |bs|);
    LayoutReplace(bs, keyOf, b, FirstIndex(bs[b], keyOf, k), r);
  }

  /** Replacing the record k finds, then replacing it again, is one
      replacement by the second record: the first replacement keeps key k
      at the same place in the chain. */
  lemma FirstReplacedTwice<R>(bs: seq<seq<R>>, keyOf: R -> string, k: string, r1: R, r2: R)
    requires 0 < |bs| && LookupIn(bs, keyOf, k).Some? && keyOf(r1) == k
    ensures LookupIn(FirstReplaced(bs, keyOf, k, r1), keyOf, k).Some?
    ensures FirstReplaced(FirstReplaced(bs, keyOf, k, r1), keyOf, k, r2) == FirstReplaced(bs, keyOf, k, r2)
  {
    FirstReplacedLookup(bs, keyOf, k, r1, k);
    var b := Fnv.Bucket(k, |bs|);
    var j := FirstIndex(bs[b], keyOf, k);
    var c := bs[b][j := r1];
    FirstIndexIs(c, keyOf, k, j);
    assert c[j := r2] == bs[b][j := r2];
  }

  /** Restarting (save every chain in bucket order, then load the dump by head
      insertion in file order) reverses each chain, so after the restart a key
      resolves to its LAST record in the dump. For every key held by at most one
      record this is the record the lookup returned before the restart. */
  lemma RestartKeepsUniqueKeys<R>(bs: seq<seq<R>>, keyOf: R -> string, k: string)
    requires Layout(bs, keyOf)
    requires AtMostOnce(Flatten(bs), keyOf, k)
    ensures LastMatch(Flatten(bs), keyOf, k) == FirstMatch(bs[Fnv.Bucket(k, |bs|)], keyOf, k)
  {
    var b := Fnv.Bucket(k, |bs|);
    forall i | 0 <= i < |bs| && i != b ensures NoKey(bs[i], keyOf, k) {
    }
    FlattenMatches(bs, keyOf, k, b);
    UniqueKeyFirstIsLast(Flatten(bs), keyOf, k);
  }

  /** Restarting in general: save every chain in bucket order, then load
      the dump into a table of empty chains by head insertion in file order.
      Afterwards a key finds the LAST record of its old chain, the oldest
      one, where the lookup before the restart found the first, the newest.
      So a record shadowed by a newer one with the same key is the one found
      after the restart. */
  lemma RestartUnshadows<R>(bs: seq<seq<R>>, keyOf: R -> string, k: string, blank: seq<seq<R>>)
    requires Layout(bs, keyOf)
    requires 0 < |blank| && forall i :: 0 <= i < |blank| ==> blank[i] == []
    ensures LookupIn(InsertedAll(blank, keyOf, Flatten(bs)), keyOf, k) == LastMatch(bs[Fnv.Bucket(k, |bs|)], keyOf, k)
  {
    var b := Fnv.Bucket(k, |bs|);
    forall i | 0 <= i < |bs| && i != b ensures NoKey(bs[i], keyOf, k) {
    }
    FlattenMatches(bs, keyOf, k, b);
    InsertedAllLookup(blank, keyOf, Flatten(bs), k);
    assert blank[Fnv.Bucket(k, |blank|)] == [];
  }

  /** One fixed-size table of chains. `buckets[i]` is chain i, head first. */
  class ChainTable<R> {
    const size: nat
    const keyOf: R -> string
    const buckets: array<seq<R>>

    ghost predicate Valid()
      reads buckets
    {
      buckets.Length == size && Layout(buckets[..], keyOf)
    }

    /** The bucket a key belongs to: `fnv1a(key) % size`. */
    function Index(k: string): (i: nat)
      requires 0 < size
      ensures i < size
    {
      Fnv.Bucket(k, size)
    }

    /** Every stored record, bucket 0 first, each chain head to tail. */
    ghost function All(): seq<R>
      reads buckets
    {
      Flatten(buckets[..])
    }

    /** What `find` returns for k: the first record with key k in k's chain. */
    function Lookup(k: string): Option<R>
      requires Valid()
      reads buckets
    {
      LookupIn(buckets[..], keyOf, k)
    }

    /** A table of n empty chains (the constructor's `nullptr` loop). */
    constructor (n: nat, key: R -> string)
      requires 0 < n
      ensures Valid() && fresh(buckets)
      ensures size == n && keyOf == key
      ensures forall i :: 0 <= i < n ==> buckets[i] == []
      ensures forall k :: Lookup(k) == None
      ensures All() == []
    {
      size, keyOf := n, key;
      buckets := new seq<R>[n](_ => []);
      new;
      FlattenEmpty(buckets[..]);
    }

    /** The chain walk: index the bucket, return the first record whose key
        is k, or None (the source's nullptr). */
    method Find(k: string) returns (r: Option<R>)
      requires Valid()
      ensures r == Lookup(k)
      ensures r.None? <==> forall j :: 0 <= j < |buckets[Index(k)]| ==> keyOf(buckets[Index(k)][j]) != k
      ensures r.Some? ==> keyOf(r.value) == k && r.value in buckets[Index(k)]
    {
      var chain := buckets[Index(k)];
      var j := 0;
      while j < |chain|
        invariant 0 <= j <= |chain|
        invariant forall m :: 0 <= m < j ==> keyOf(chain[m]) != k
      {
        if keyOf(chain[j]) == k {
          FirstIndexIs(chain, keyOf, k, j);
          return Some(chain[j]);
        }
        j := j + 1;
      }
      FirstIndexIs(chain, keyOf, k, j);
      return None;
    }

    /** A lookup fails exactly when no record anywhere in the table has key k. */
    lemma LookupNoneIffAbsent(k: string)
      requires Valid()
      ensures Lookup(k).None? <==> forall r :: r in All() ==> keyOf(r) != k
      ensures Lookup(k).Some? ==> keyOf(Lookup(k).value) == k && Lookup(k).value in All()
    {
      var b := Index(k);
      if Lookup(k).None? {
        forall r | r in All() ensures keyOf(r) != k {
          FlattenMember(buckets[..], r);
          var i :| 0 <= i < size && r in buckets[..][i];
          var j :| 0 <= j < |buckets[i]| && buckets[i][j] == r;
          assert Index(keyOf(buckets[i][j])) == i;
        }
      } else {
        var r := Lookup(k).value;
        assert r in buckets[..][b];
        FlattenMember(buckets[..], r);
      }
    }

    /** Insertion at the head of the key's chain (`newnode->next = head;
        head = newnode`). */
    method Insert(r: R)
      requires Valid()
      modifies buckets
      ensures Valid()
      ensures buckets[..] == HeadInserted(old(buckets[..]), keyOf, r)
      ensures Lookup(keyOf(r)) == Some(r)
      ensures forall k :: k != keyOf(r) ==> Lookup(k) == old(Lookup(k))
      ensures multiset(All()) == old(multiset(All())) + multiset{r}
    {
      var b := Index(keyOf(r));
      ghost var before := buckets[..];
      buckets[b] := [r] + buckets[b];
      assert buckets[..] == HeadInserted(before, keyOf, r);
      LayoutHeadInsert(before, keyOf, r);
      HeadInsertedMultiset(before, keyOf, r);
      forall k ensures Lookup(k) == if keyOf(r) == k then Some(r) else old(Lookup(k)) {
        HeadInsertedLookup(before, keyOf, r, k);
      }
    }

    /** The loaders' loop: head insertion of every record of s in order.
        Afterwards a key held by some record of s finds the last such record,
        and every other key finds what it found before. */
    method InsertAll(s: seq<R>)
      requires Valid()
      modifies buckets
      ensures Valid()
      ensures forall k :: Lookup(k) == if LastMatch(s, keyOf, k).Some? then LastMatch(s, keyOf, k) else old(Lookup(k))
      ensures multiset(All()) == old(multiset(All())) + multiset(s)
    {
      ghost var init := buckets[..];
      var i := 0;
      while i < |s|
        invariant 0 <= i <= |s|
        invariant buckets[..] == InsertedAll(init, keyOf, s[..i])
      {
        InsertedAllLayout(init, keyOf, s[..i]);
        var b := Index(keyOf(s[i]));
        buckets[b] := [s[i]] + buckets[b];
        assert s[..i + 1][..i] == s[..i];
        i := i + 1;
      }
      assert s[..i] == s;
      InsertedAllLayout(init, keyOf, s);
      InsertedAllMultiset(init, keyOf, s);
      forall k ensures Lookup(k) == if LastMatch(s, keyOf, k).Some? then LastMatch(s, keyOf, k) else old(Lookup(k)) {
        InsertedAllLookup(init, keyOf, s, k);
      }
    }

    /** Assignment through the pointer that a lookup for k returned: the first
        record with key k becomes r, and nothing else changes. */
    method ReplaceFirst(k: string, r: R)
      requires Valid()
      requires keyOf(r) == k && Lookup(k).Some?
      modifies buckets
      ensures Valid()
      ensures buckets[..] == FirstReplaced(old(buckets[..]), keyOf, k, r)
      ensures Lookup(k) == Some(r)
      ensures forall k' :: k' != k ==> Lookup(k') == old(Lookup(k'))
      ensures multiset(All()) + multiset{old(Lookup(k)).value} == old(multiset(All())) + multiset{r}
    {
      var b := Index(k);
      var chain := buckets[b];
      var j := 0;
      while keyOf(chain[j]) != k
        invariant 0 <= j <= FirstIndex(chain, keyOf, k) < |chain|
        decreases |chain| - j
      {
        j := j + 1;
      }
      FirstIndexIs(chain, keyOf, k, j);
      ghost var before := buckets[..];
      buckets[b] := chain[j := r];
      assert buckets[..] == FirstReplaced(before, keyOf, k, r);
      FirstReplacedLayout(before, keyOf, k, r);
      FirstReplacedMultiset(before, keyOf, k, r);
      forall k' ensures Lookup(k') == if k' == k then Some(r) else old(Lookup(k')) {
        FirstReplacedLookup(before, keyOf, k, r, k');
      }
    }

    /** The save traversal: every bucket in order 0..size-1, each chain from
        head to tail. */
    method Dump() returns (out: seq<R>)
      requires Valid()
      ensures out == All()
    {
      out := [];
      var i := 0;
      while i < size
        invariant 0 <= i <= size
        invariant out == Flatten(buckets[..i])
      {
        var chain := buckets[i];
        var j := 0;
        while j < |chain|
          invariant 0 <= j <= |chain|
          invariant out == Flatten(buckets[..i]) + chain[..j]
        {
          out := out + [chain[j]];
          j := j + 1;
        }
        assert buckets[..i + 1][..i] == buckets[..i];
        i := i + 1;
      }
      assert buckets[..size] == buckets[..];
    }
  }

  /** A loader: n empty chains, then every record of s head-inserted in order.
      A key held by some record of s finds the last such record. */
  method FromSeq<R>(n: nat, keyOf: R -> string, s: seq<R>) returns (t: ChainTable<R>)
    requires 0 < n
    ensures t.Valid() && fresh(t.buckets)
    ensures t.size == n && t.keyOf == keyOf
    ensures forall k :: t.Lookup(k) == LastMatch(s, keyOf, k)
    ensures multiset(t.All()) == multiset(s)
  {
    t := new ChainTable(n, keyOf);
    t.InsertAll(s);
  }
}
