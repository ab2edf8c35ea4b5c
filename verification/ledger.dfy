/**
 * The duty-request ledger: an append-ordered sequence of overrides that
 * behaves as a map keyed by (nurse id, day), because every new entry first
 * evicts any entry with the same key.
 */
module Ledger {

  /** One override: nurse `nurseId` works shift `shiftId` on day `day`. */
  datatype Request = Request(nurseId: int, day: int, shiftId: int)

  /** The key two requests collide on. */
  datatype Key = Key(nurseId: int, day: int)

  function KeyOf(r: Request): Key {
    Key(r.nurseId, r.day)
  }

  /** How many entries of `ledger` carry key `k`. */
  function Count(ledger: seq<Request>, k: Key): nat {
    if |ledger| == 0 then 0
    else (if KeyOf(ledger[0]) == k then 1 else 0) + Count(ledger[1..], k)
  }

  /** No two entries share a key. */
  predicate UniqueKeys(ledger: seq<Request>) {
    forall i, j :: 0 <= i < j < |ledger| ==> KeyOf(ledger[i]) != KeyOf(ledger[j])
  }

  lemma {:induction false} CountAppend(a: seq<Request>, b: seq<Request>, k: Key)
    ensures Count(a + b, k) == Count(a, k) + Count(b, k)
  {
    if |a| > 0 {
      assert (a + b)[1..] == a[1..] + b;
      CountAppend(a[1..], b, k);
    } else {
      assert a + b == b;
    }
  }

  /** A key is counted zero times exactly when no entry carries it. */
  lemma {:induction false} CountZero(ledger: seq<Request>, k: Key)
    ensures Count(ledger, k) == 0 <==> forall i :: 0 <= i < |ledger| ==> KeyOf(ledger[i]) != k
  {
    if |ledger| > 0 {
      CountZero(ledger[1..], k);
      assert forall i :: 1 <= i < |ledger| ==> ledger[i] == ledger[1..][i - 1];
    }
  }

  /**
   * The two readings of "unique keys" agree: no two entries share a key
   * exactly when every key occurs at most once.
   */
  lemma {:induction false} UniqueKeysIffCountAtMostOne(ledger: seq<Request>)
    ensures UniqueKeys(ledger) <==> forall k :: Count(ledger, k) <= 1
  {
    if |ledger| > 0 {
      var tail := ledger[1..];
      UniqueKeysIffCountAtMostOne(tail);
      assert forall i :: 1 <= i < |ledger| ==> ledger[i] == tail[i - 1];
      if UniqueKeys(ledger) {
        assert UniqueKeys(tail) by {
          forall i, j | 0 <= i < j < |tail| ensures KeyOf(tail[i]) != KeyOf(tail[j]) {
            assert tail[i] == ledger[i + 1] && tail[j] == ledger[j + 1];
          }
        }
        forall k ensures Count(ledger, k) <= 1 {
          assert Count(ledger, k) == (if KeyOf(ledger[0]) == k then 1 else 0) + Count(tail, k);
          assert Count(tail, k) <= 1;
          if KeyOf(ledger[0]) == k {
            forall i | 0 <= i < |tail| ensures KeyOf(tail[i]) != k {
              assert tail[i] == ledger[i + 1];
            }
            CountZero(tail, k);
          }
        }
      } else {
        var i, j :| 0 <= i < j < |ledger| && KeyOf(ledger[i]) == KeyOf(ledger[j]);
        var k := KeyOf(ledger[i]);
        if i == 0 {
          assert KeyOf(tail[j - 1]) == k;
          CountZero(tail, k);
          assert Count(tail, k) >= 1;
          assert Count(ledger, k) == 1 + Count(tail, k);
        } else {
          assert !UniqueKeys(tail) by {
            assert KeyOf(tail[i - 1]) == KeyOf(tail[j - 1]);
          }
          var k' :| Count(tail, k') > 1;
          assert Count(ledger, k') == (if KeyOf(ledger[0]) == k' then 1 else 0) + Count(tail, k');
        }
      }
    }
  }

  /**
   * The entries whose key is not `k`, in their original order: the
   * `filter` step of the upsert.
   */
  function Without(ledger: seq<Request>, k: Key): (r: seq<Request>)
    ensures |r| == |ledger| - Count(ledger, k)
    ensures Count(r, k) == 0
  {
    if |ledger| == 0 then []
    else if KeyOf(ledger[0]) == k then Without(ledger[1..], k)
    else
      var rest := Without(ledger[1..], k);
      assert ([ledger[0]] + rest)[1..] == rest;
      [ledger[0]] + rest
  }

  /** The filter keeps exactly the entries whose key is not `k`. */
  lemma {:induction false} WithoutMembers(ledger: seq<Request>, k: Key, x: Request)
    ensures x in Without(ledger, k) <==> x in ledger && KeyOf(x) != k
  {
    if |ledger| > 0 {
      WithoutMembers(ledger[1..], k, x);
      assert x in ledger <==> x == ledger[0] || x in ledger[1..];
    }
  }

  /** Filtering out `k` leaves the number of entries of every other key unchanged. */
  lemma {:induction false} WithoutKeepsOtherCounts(ledger: seq<Request>, k: Key, k': Key)
    requires k' != k
    ensures Count(Without(ledger, k), k') == Count(ledger, k')
  {
    if |ledger| > 0 {
      WithoutKeepsOtherCounts(ledger[1..], k, k');
      if KeyOf(ledger[0]) != k {
        assert ([ledger[0]] + Without(ledger[1..], k))[1..] == Without(ledger[1..], k);
      }
    }
  }

  /** Filtering commutes with concatenation: it keeps relative order across any split. */
  lemma {:induction false} WithoutAppend(a: seq<Request>, b: seq<Request>, k: Key)
    ensures Without(a + b, k) == Without(a, k) + Without(b, k)
  {
    if |a| == 0 {
      assert a + b == b;
    } else {
      assert (a + b)[0] == a[0];
      assert (a + b)[1..] == a[1..] + b;
      WithoutAppend(a[1..], b, k);
    }
  }

  /** Filtering a ledger that does not mention `k` leaves it untouched. */
  lemma {:induction false} WithoutAbsent(ledger: seq<Request>, k: Key)
    requires Count(ledger, k) == 0
    ensures Without(ledger, k) == ledger
  {
    if |ledger| > 0 {
      assert KeyOf(ledger[0]) != k;
      WithoutAbsent(ledger[1..], k);
    }
  }

  /**
   * `addRequest`: drop every entry with the new request's key, then append
   * the new request. Afterwards exactly one entry has that key and it is
   * the last one; every other key is as frequent as before.
   */
  function Upsert(ledger: seq<Request>, req: Request): (r: seq<Request>)
    ensures |r| > 0 && r[|r| - 1] == req
    ensures Count(r, KeyOf(req)) == 1
    ensures forall k :: k != KeyOf(req) ==> Count(r, k) == Count(ledger, k)
    ensures |r| == |ledger| + 1 - Count(ledger, KeyOf(req))
  {
    var kept := Without(ledger, KeyOf(req));
    CountAppend(kept, [req], KeyOf(req));
    assert [req][1..] == [];
    forall k | k != KeyOf(req) ensures Count(kept + [req], k) == Count(ledger, k) {
      CountAppend(kept, [req], k);
      WithoutKeepsOtherCounts(ledger, KeyOf(req), k);
    }
    kept + [req]
  }

  /** The entries before the new one are the old ledger's other-key entries, in order. */
  lemma UpsertKeepsOthersInOrder(ledger: seq<Request>, req: Request)
    ensures Upsert(ledger, req)[..|Upsert(ledger, req)| - 1] == Without(ledger, KeyOf(req))
  {
  }

  /**
   * Upsert keeps keys unique, and then the ledger grows by one when the key
   * was new and keeps its length when it replaced an entry.
   */
  lemma UpsertKeepsKeysUnique(ledger: seq<Request>, req: Request)
    requires UniqueKeys(ledger)
    ensures UniqueKeys(Upsert(ledger, req))
    ensures Count(ledger, KeyOf(req)) == 0 ==> |Upsert(ledger, req)| == |ledger| + 1
    ensures Count(ledger, KeyOf(req)) != 0 ==> |Upsert(ledger, req)| == |ledger|
  {
    var r := Upsert(ledger, req);
    UniqueKeysIffCountAtMostOne(ledger);
    assert Count(ledger, KeyOf(req)) <= 1;
    forall k ensures Count(r, k) <= 1 {
      if k != KeyOf(req) {
        assert Count(ledger, k) <= 1;
      }
    }
    UniqueKeysIffCountAtMostOne(r);
  }

  /**
   * The map a ledger denotes: each key to the shift of its LAST entry, so
   * later entries override earlier ones.
   */
  function ToMap(ledger: seq<Request>): map<Key, int>
  {
    if |ledger| == 0 then map[]
    else
      var last := ledger[|ledger| - 1];
      ToMap(ledger[..|ledger| - 1])[KeyOf(last) := last.shiftId]
  }

  lemma {:induction false} ToMapAppend(ledger: seq<Request>, x: Request)
    ensures ToMap(ledger + [x]) == ToMap(ledger)[KeyOf(x) := x.shiftId]
  {
    assert (ledger + [x])[..|ledger|] == ledger;
  }

  /** A key has an entry in the map exactly when some ledger entry carries it. */
  lemma {:induction false} ToMapDomain(ledger: seq<Request>, k: Key)
    ensures k in ToMap(ledger) <==> Count(ledger, k) > 0
  {
    if |ledger| > 0 {
      var init := ledger[..|ledger| - 1];
      var last := ledger[|ledger| - 1];
      assert ledger == init + [last];
      ToMapDomain(init, k);
      CountAppend(init, [last], k);
      assert [last][1..] == [];
    }
  }

  /** Dropping the entries of key `k` removes exactly `k` from the denoted map. */
  lemma {:induction false} ToMapWithout(ledger: seq<Request>, k: Key)
    ensures ToMap(Without(ledger, k)) == ToMap(ledger) - {k}
  {
    if |ledger| > 0 {
      var init := ledger[..|ledger| - 1];
      var last := ledger[|ledger| - 1];
      var m := ToMap(init);
      assert ToMap(ledger) == m[KeyOf(last) := last.shiftId];
      assert Without(ledger, k) == Without(init, k) + Without([last], k) by {
        assert ledger == init + [last];
        WithoutAppend(init, [last], k);
      }
      assert ToMap(Without(init, k)) == m - {k} by {
        ToMapWithout(init, k);
      }
      if KeyOf(last) == k {
        assert Without([last], k) == [] by {
          assert Without([last], k) == Without([last][1..], k);
        }
        assert Without(ledger, k) == Without(init, k);
        assert m[k := last.shiftId] - {k} == m - {k};
      } else {
        assert Without([last], k) == [last] by {
          assert Without([last], k) == [last] + Without([last][1..], k);
        }
        assert ToMap(Without(ledger, k)) == ToMap(Without(init, k))[KeyOf(last) := last.shiftId] by {
          ToMapAppend(Without(init, k), last);
        }
        assert (m - {k})[KeyOf(last) := last.shiftId] == m[KeyOf(last) := last.shiftId] - {k};
      }
    }
  }

  /** Last write wins: an upsert updates the denoted map at the request's key and nowhere else. */
  lemma UpsertUpdatesMap(ledger: seq<Request>, req: Request)
    ensures ToMap(Upsert(ledger, req)) == ToMap(ledger)[KeyOf(req) := req.shiftId]
  {
    ToMapAppend(Without(ledger, KeyOf(req)), req);
    ToMapWithout(ledger, KeyOf(req));
  }

  /** The ledger after a series of upserts, applied left to right. */
  function UpsertAll(ledger: seq<Request>, reqs: seq<Request>): seq<Request>
    decreases |reqs|
  {
    if |reqs| == 0 then ledger
    else UpsertAll(Upsert(ledger, reqs[0]), reqs[1..])
  }

  /**
   * For any series of upserts onto an empty ledger, keys stay unique and the
   * value recorded for every key is the one of its most recent request.
   */
  lemma UpsertAllFromEmpty(reqs: seq<Request>)
    ensures UniqueKeys(UpsertAll([], reqs))
    ensures ToMap(UpsertAll([], reqs)) == ToMap(reqs)
  {
    UpsertAllInvariant([], [], reqs);
    assert [] + reqs == reqs;
  }

  lemma {:induction false} UpsertAllInvariant(ledger: seq<Request>, done: seq<Request>, reqs: seq<Request>)
    requires UniqueKeys(ledger) && ToMap(ledger) == ToMap(done)
    ensures UniqueKeys(UpsertAll(ledger, reqs))
    ensures ToMap(UpsertAll(ledger, reqs)) == ToMap(done + reqs)
    decreases |reqs|
  {
    if |reqs| == 0 {
      assert done + reqs == done;
    } else {
      var next := Upsert(ledger, reqs[0]);
      var done' := done + [reqs[0]];
      UpsertStep(ledger, done, reqs[0]);
      assert UpsertAll(ledger, reqs) == UpsertAll(next, reqs[1..]);
      ShiftFirst(done, reqs);
      UpsertAllInvariant(next, done', reqs[1..]);
    }
  }

  /** One upsert keeps keys unique and extends the request history the ledger denotes. */
  lemma UpsertStep(ledger: seq<Request>, done: seq<Request>, req: Request)
    requires UniqueKeys(ledger) && ToMap(ledger) == ToMap(done)
    ensures UniqueKeys(Upsert(ledger, req))
    ensures ToMap(Upsert(ledger, req)) == ToMap(done + [req])
  {
    UpsertKeepsKeysUnique(ledger, req);
    UpsertUpdatesMap(ledger, req);
    ToMapAppend(done, req);
  }

  lemma ShiftFirst(done: seq<Request>, reqs: seq<Request>)
    requires |reqs| > 0
    ensures (done + [reqs[0]]) + reqs[1..] == done + reqs
  {
  }

  /**
   * The remove button's `filter((_, i) => i !== idx)`: keeps every entry
   * except the one at position `idx`. An index outside the ledger removes
   * nothing.
   */
  function RemoveAt(ledger: seq<Request>, idx: int): (r: seq<Request>)
    ensures 0 <= idx < |ledger| ==> r == ledger[..idx] + ledger[idx + 1..]
    ensures !(0 <= idx < |ledger|) ==> r == ledger
  {
    if |ledger| == 0 then []
    else
      var rest := RemoveAt(ledger[1..], idx - 1);
      if idx == 0 then rest
      else
        assert 0 < idx < |ledger| ==> ledger[1..][..idx - 1] == ledger[1..idx];
        [ledger[0]] + rest
  }

  /** Removing an entry keeps keys unique. */
  lemma RemoveKeepsKeysUnique(ledger: seq<Request>, idx: int)
    requires UniqueKeys(ledger)
    ensures UniqueKeys(RemoveAt(ledger, idx))
    ensures 0 <= idx < |ledger| ==> |RemoveAt(ledger, idx)| == |ledger| - 1
  {
    if 0 <= idx < |ledger| {
      var r := RemoveAt(ledger, idx);
      assert forall i :: 0 <= i < |r| ==> r[i] == ledger[if i < idx then i else i + 1];
      forall i, j | 0 <= i < j < |r| ensures KeyOf(r[i]) != KeyOf(r[j]) {
        assert r[i] == ledger[if i < idx then i else i + 1];
        assert r[j] == ledger[if j < idx then j else j + 1];
      }
    }
  }

  /**
   * On a ledger with unique keys, removing the entry at `idx` deletes
   * exactly that entry's override: it is the same as filtering out its key.
   */
  lemma RemoveDeletesOverride(ledger: seq<Request>, idx: int)
    requires UniqueKeys(ledger) && 0 <= idx < |ledger|
    ensures RemoveAt(ledger, idx) == Without(ledger, KeyOf(ledger[idx]))
    ensures ToMap(RemoveAt(ledger, idx)) == ToMap(ledger) - {KeyOf(ledger[idx])}
  {
    LoneKey(ledger, idx);
    DropLoneEntry(ledger, idx);
    ToMapWithout(ledger, KeyOf(ledger[idx]));
  }

  /** In a ledger with unique keys, no entry before or after position `idx` shares its key. */
  lemma LoneKey(ledger: seq<Request>, idx: int)
    requires UniqueKeys(ledger) && 0 <= idx < |ledger|
    ensures Count(ledger[..idx], KeyOf(ledger[idx])) == 0
    ensures Count(ledger[idx + 1..], KeyOf(ledger[idx])) == 0
  {
    var k := KeyOf(ledger[idx]);
    var pre, post := ledger[..idx], ledger[idx + 1..];
    CountZero(pre, k);
    forall i | 0 <= i < |post| ensures KeyOf(post[i]) != k {
      assert post[i] == ledger[idx + 1 + i];
    }
    CountZero(post, k);
  }

  /** Filtering out the key of an entry that is the only one with its key removes just that entry. */
  lemma DropLoneEntry(ledger: seq<Request>, idx: int)
    requires 0 <= idx < |ledger|
    requires Count(ledger[..idx], KeyOf(ledger[idx])) == 0
    requires Count(ledger[idx + 1..], KeyOf(ledger[idx])) == 0
    ensures Without(ledger, KeyOf(ledger[idx])) == ledger[..idx] + ledger[idx + 1..]
  {
    var x := ledger[idx];
    var k := KeyOf(x);
    var pre, post := ledger[..idx], ledger[idx + 1..];
    assert ledger == pre + ([x] + post);
    WithoutAbsent(pre, k);
    SkipMatching(x, post, k);
    WithoutAppend(pre, [x] + post, k);
  }

  /** A leading entry of key `k` followed by entries without `k` filters down to those entries. */
  lemma SkipMatching(x: Request, post: seq<Request>, k: Key)
    requires KeyOf(x) == k && Count(post, k) == 0
    ensures Without([x] + post, k) == post
  {
    assert ([x] + post)[1..] == post;
    WithoutAbsent(post, k);
  }
}
