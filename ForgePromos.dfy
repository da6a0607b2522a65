/**
 * The forge promotion cache (`forge_promos_cache`): a process-wide map from
 * game version to forge version, filled at most once per run from the
 * "promos" object of the forge promotions document. The download is an
 * input: either the object it yielded or a failure.
 */
module ForgePromos {
  import opened Text

  const LatestSuffix: string := "-latest"

  /** A promotion key that names the latest forge build of a game version. */
  predicate IsLatestKey(key: string)
  {
    EndsWith(key, LatestSuffix)
  }

  /** The cache entries contributed by the keys `done` of `promos`. */
  function PromoEntries(promos: map<string, string>, done: set<string>): map<string, string>
  {
    map key | key in done && key in promos && IsLatestKey(key) :: DropSuffix(key, LatestSuffix) := promos[key]
  }

  /** The table a successful download yields: the "-latest" keys with that suffix removed. */
  function PromoTable(promos: map<string, string>): map<string, string>
  {
    PromoEntries(promos, promos.Keys)
  }

  /** Stripping the suffix is undone by appending it. */
  lemma DropLatestSuffix(mc: string)
    ensures IsLatestKey(mc + LatestSuffix)
    ensures DropSuffix(mc + LatestSuffix, LatestSuffix) == mc
  {
    EndsWithAppend(mc, LatestSuffix);
    var r := DropSuffix(mc + LatestSuffix, LatestSuffix);
    assert |r| == |mc|;
    assert r == (r + LatestSuffix)[..|mc|] == (mc + LatestSuffix)[..|mc|] == mc;
  }

  /**
   * A game version is in the table exactly when `<version>-latest` is a
   * promotion key, and it maps to that key's value.
   */
  lemma PromoTableKeys(promos: map<string, string>, mc: string)
    ensures mc in PromoTable(promos) <==> mc + LatestSuffix in promos
    ensures mc in PromoTable(promos) ==> PromoTable(promos)[mc] == promos[mc + LatestSuffix]
  {
    DropLatestSuffix(mc);
    var t := PromoTable(promos);
    if mc in t {
      var key :| key in promos && IsLatestKey(key) && DropSuffix(key, LatestSuffix) == mc;
      assert key == DropSuffix(key, LatestSuffix) + LatestSuffix;
    }
  }

  /** One more key processed: the entries grow by that key's contribution, if any. */
  lemma PromoEntriesStep(promos: map<string, string>, done: set<string>, key: string)
    requires key in promos && key !in done
    ensures IsLatestKey(key) ==>
              PromoEntries(promos, done + {key}) == PromoEntries(promos, done)[DropSuffix(key, LatestSuffix) := promos[key]]
    ensures !IsLatestKey(key) ==> PromoEntries(promos, done + {key}) == PromoEntries(promos, done)
  {
    if IsLatestKey(key) {
      var mc := DropSuffix(key, LatestSuffix);
      var a := PromoEntries(promos, done + {key});
      var b := PromoEntries(promos, done)[mc := promos[key]];
      forall m | m in a ensures m in b && a[m] == b[m] {
        var k :| k in done + {key} && k in promos && IsLatestKey(k) && DropSuffix(k, LatestSuffix) == m;
        assert k == DropSuffix(k, LatestSuffix) + LatestSuffix;
      }
      forall m | m in b ensures m in a {
        if m != mc {
          var k :| k in done && k in promos && IsLatestKey(k) && DropSuffix(k, LatestSuffix) == m;
        }
      }
      assert a == b;
    }
  }

  /** What the download gave: the "promos" object (empty when absent), or an exception. */
  datatype PromoResponse = FetchFailed | Fetched(promos: map<string, string>)

  /**
   * The cache after `fetch_forge_promos`: unchanged when already filled or
   * when the download failed; otherwise exactly the table of the download.
   */
  function AfterFetch(cache: map<string, string>, response: PromoResponse): (r: map<string, string>)
    ensures cache != map[] ==> r == cache
    ensures cache == map[] && response.FetchFailed? ==> r == map[]
    ensures cache == map[] && response.Fetched? ==>
              forall mc :: mc in r <==> mc + LatestSuffix in response.promos
    ensures cache == map[] && response.Fetched? ==>
              forall mc :: mc in r ==> r[mc] == response.promos[mc + LatestSuffix]
  {
    if cache != map[] then cache
    else match response
      case FetchFailed => cache
      case Fetched(promos) =>
        assert forall mc :: (mc in PromoTable(promos) <==> mc + LatestSuffix in promos)
                            && (mc in PromoTable(promos) ==> PromoTable(promos)[mc] == promos[mc + LatestSuffix]) by {
          forall mc ensures (mc in PromoTable(promos) <==> mc + LatestSuffix in promos)
                            && (mc in PromoTable(promos) ==> PromoTable(promos)[mc] == promos[mc + LatestSuffix]) {
            PromoTableKeys(promos, mc);
          }
        }
        PromoTable(promos)
  }

  /** Fetching again with the same answer changes nothing. */
  lemma FetchIdempotent(cache: map<string, string>, response: PromoResponse)
    ensures AfterFetch(AfterFetch(cache, response), response) == AfterFetch(cache, response)
  {
  }

  /** The process-wide cache. */
  class ForgePromoCache {
    var table: map<string, string>

    /** `forge_promos_cache = {}` at start-up. */
    constructor ()
      ensures table == map[]
    {
      table := map[];
    }

    /** `fetch_forge_promos`: fills an empty cache from the download, key by key. */
    method Fetch(response: PromoResponse)
      modifies this
      ensures table == AfterFetch(old(table), response)
    {
      if table != map[] {
        return;
      }
      if response.FetchFailed? {
        return;
      }
      var promos := response.promos;
      var remaining := promos.Keys;
      while remaining != {}
        invariant remaining <= promos.Keys
        invariant table == PromoEntries(promos, promos.Keys - remaining)
        decreases remaining
      {
        var key :| key in remaining;
        PromoEntriesStep(promos, promos.Keys - remaining, key);
        assert (promos.Keys - remaining) + {key} == promos.Keys - (remaining - {key});
        if EndsWith(key, LatestSuffix) {
          var mc := key[..|key| - 7];
          table := table[mc := promos[key]];
        }
        remaining := remaining - {key};
      }
      assert promos.Keys - remaining == promos.Keys;
    }
  }
}
