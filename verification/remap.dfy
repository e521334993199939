/**
 * Rebuilding a dictionary entry by entry: some entries are skipped, the
 * others are stored under a new key, later entries overwriting earlier ones
 * stored under the same key.
 */
module Remapping {
  import opened Dicts

  /**
   * The dict built from the first t entries of d when entries whose key is
   * dropped are skipped and the others are stored under rename(key), later
   * entries overwriting earlier ones stored under the same key.
   */
  function RemappedPrefix<V>(d: Dict<V>, dropped: string -> bool, rename: string -> string, t: nat): (r: Dict<V>)
    requires d.Valid() && t <= |d.keys|
  {
    if t == 0 then Empty()
    else
      var key := d.keys[t - 1];
      var prev := RemappedPrefix(d, dropped, rename, t - 1);
      if dropped(key) then prev else prev.Put(rename(key), d.entries[key])
  }

  /** The rebuilt dict lists each of its keys once, and exactly its keys have an entry. */
  lemma {:induction false} RemappedPrefixValid<V>(d: Dict<V>, dropped: string -> bool, rename: string -> string, t: nat)
    requires d.Valid() && t <= |d.keys|
    ensures RemappedPrefix(d, dropped, rename, t).Valid()
  {
    if t > 0 {
      RemappedPrefixValid(d, dropped, rename, t - 1);
    }
  }

  /**
   * Every entry built from the first t was stored under the renamed key of a
   * kept source key, with that key's value, and every kept source key has its
   * renamed key in the result.
   */
  lemma {:induction false} RemappedPrefixEntries<V>(d: Dict<V>, dropped: string -> bool, rename: string -> string, t: nat)
    requires d.Valid() && t <= |d.keys|
    ensures var r := RemappedPrefix(d, dropped, rename, t);
      && (forall k' :: k' in r.entries ==>
            exists u :: 0 <= u < t && !dropped(d.keys[u]) && rename(d.keys[u]) == k' &&
                        r.entries[k'] == d.entries[d.keys[u]])
      && (forall u :: 0 <= u < t && !dropped(d.keys[u]) ==> rename(d.keys[u]) in r.entries)
  {
    if t > 0 {
      RemappedPrefixEntries(d, dropped, rename, t - 1);
      var key := d.keys[t - 1];
      var prev := RemappedPrefix(d, dropped, rename, t - 1);
      var r := RemappedPrefix(d, dropped, rename, t);
      if !dropped(key) {
        forall k' | k' in r.entries
          ensures exists u :: 0 <= u < t && !dropped(d.keys[u]) && rename(d.keys[u]) == k' &&
                              r.entries[k'] == d.entries[d.keys[u]]
        {
          if k' == rename(key) {
            assert r.entries[k'] == d.entries[d.keys[t - 1]];
          } else {
            assert k' in prev.entries && r.entries[k'] == prev.entries[k'];
            var u :| 0 <= u < t - 1 && !dropped(d.keys[u]) && rename(d.keys[u]) == k' &&
                     prev.entries[k'] == d.entries[d.keys[u]];
          }
        }
      }
    }
  }

  /**
   * The last kept source key stored under a key gives its value: an entry
   * whose renamed key no later kept entry shares keeps its own value.
   */
  lemma {:induction false} RemappedPrefixLastWins<V>(d: Dict<V>, dropped: string -> bool, rename: string -> string,
                                                     t: nat, u: nat)
    requires d.Valid() && u < t <= |d.keys|
    requires !dropped(d.keys[u])
    requires forall w :: u < w < t && !dropped(d.keys[w]) ==> rename(d.keys[w]) != rename(d.keys[u])
    ensures var r := RemappedPrefix(d, dropped, rename, t);
      rename(d.keys[u]) in r.entries && r.entries[rename(d.keys[u])] == d.entries[d.keys[u]]
  {
    if u < t - 1 {
      RemappedPrefixLastWins(d, dropped, rename, t - 1, u);
      var key := d.keys[t - 1];
      var prev := RemappedPrefix(d, dropped, rename, t - 1);
      if !dropped(key) {
        assert RemappedPrefix(d, dropped, rename, t).entries == prev.entries[rename(key) := d.entries[key]];
      }
    }
  }

  /**
   * When every key is kept and renamed to itself, the first t entries are
   * rebuilt as they were, in their own order.
   */
  lemma {:induction false} RemappedPrefixOfFixedKeys<V>(d: Dict<V>, dropped: string -> bool, rename: string -> string,
                                                        t: nat)
    requires d.Valid() && t <= |d.keys|
    requires forall k :: k in d.entries ==> !dropped(k) && rename(k) == k
    ensures RemappedPrefix(d, dropped, rename, t) == Dict(d.keys[..t], Listed(d, d.keys[..t]))
  {
    if t > 0 {
      RemappedPrefixOfFixedKeys(d, dropped, rename, t - 1);
      var key := d.keys[t - 1];
      assert key in d.entries;
      ListedStep(d, t);
    }
  }

  /** The entries of d whose keys are in front. */
  function Listed<V>(d: Dict<V>, front: seq<string>): (m: map<string, V>)
    ensures forall k :: k in m <==> k in front && k in d.entries
  {
    map k | k in front && k in d.entries :: d.entries[k]
  }

  /** Adding the next key of d to the first t - 1 adds its entry to theirs. */
  lemma ListedStep<V>(d: Dict<V>, t: nat)
    requires d.Valid() && 0 < t <= |d.keys|
    ensures var key := d.keys[t - 1];
      && d.keys[..t] == d.keys[..t - 1] + [key]
      && key !in Listed(d, d.keys[..t - 1])
      && Listed(d, d.keys[..t]) == Listed(d, d.keys[..t - 1])[key := d.entries[key]]
  {
    var key := d.keys[t - 1];
    assert d.keys[..t] == d.keys[..t - 1] + [key];
    assert key !in d.keys[..t - 1];
  }

  /** Each entry of the rebuilt dict comes from a kept source key, with that key's value. */
  lemma RemappedSources<V>(d: Dict<V>, dropped: string -> bool, rename: string -> string)
    requires d.Valid()
    ensures var r := RemappedPrefix(d, dropped, rename, |d.keys|);
      forall k' :: k' in r.entries ==>
        exists k :: k in d.entries && !dropped(k) && rename(k) == k' && r.entries[k'] == d.entries[k]
  {
    var n := |d.keys|;
    var r := RemappedPrefix(d, dropped, rename, n);
    RemappedPrefixEntries(d, dropped, rename, n);
    forall k' | k' in r.entries
      ensures exists k :: k in d.entries && !dropped(k) && rename(k) == k' && r.entries[k'] == d.entries[k]
    {
      assert exists u :: 0 <= u < n && !dropped(d.keys[u]) && rename(d.keys[u]) == k' && r.entries[k'] == d.entries[d.keys[u]];
      var u :| 0 <= u < n && !dropped(d.keys[u]) && rename(d.keys[u]) == k' && r.entries[k'] == d.entries[d.keys[u]];
      assert d.keys[u] in d.entries;
    }
  }

  /** The kept source key an entry of the rebuilt dict comes from. */
  lemma RemappedSource<V>(d: Dict<V>, dropped: string -> bool, rename: string -> string, k': string) returns (k: string)
    requires d.Valid()
    requires k' in RemappedPrefix(d, dropped, rename, |d.keys|).entries
    ensures k in d.entries && !dropped(k) && rename(k) == k'
    ensures RemappedPrefix(d, dropped, rename, |d.keys|).entries[k'] == d.entries[k]
  {
    RemappedSources(d, dropped, rename);
    k :| k in d.entries && !dropped(k) && rename(k) == k' && RemappedPrefix(d, dropped, rename, |d.keys|).entries[k'] == d.entries[k];
  }

  /** Every kept source key has its renamed key in the rebuilt dict. */
  lemma RemappedKept<V>(d: Dict<V>, dropped: string -> bool, rename: string -> string)
    requires d.Valid()
    ensures var r := RemappedPrefix(d, dropped, rename, |d.keys|);
      forall k :: k in d.entries && !dropped(k) ==> rename(k) in r.entries
  {
    var n := |d.keys|;
    RemappedPrefixEntries(d, dropped, rename, n);
    forall k | k in d.entries && !dropped(k) ensures rename(k) in RemappedPrefix(d, dropped, rename, n).entries {
      var u :| 0 <= u < n && d.keys[u] == k;
    }
  }

  /** A source key that no other kept key is renamed onto keeps its own value. */
  lemma RemappedUnshared<V>(d: Dict<V>, dropped: string -> bool, rename: string -> string)
    requires d.Valid()
    ensures var r := RemappedPrefix(d, dropped, rename, |d.keys|);
      forall k :: k in d.entries && !dropped(k) &&
                  (forall k2 :: k2 in d.entries && !dropped(k2) && k2 != k ==> rename(k2) != rename(k)) ==>
                  rename(k) in r.entries && r.entries[rename(k)] == d.entries[k]
  {
    var n := |d.keys|;
    forall k | k in d.entries && !dropped(k) &&
               (forall k2 :: k2 in d.entries && !dropped(k2) && k2 != k ==> rename(k2) != rename(k))
      ensures var r := RemappedPrefix(d, dropped, rename, n);
        rename(k) in r.entries && r.entries[rename(k)] == d.entries[k]
    {
      var u :| 0 <= u < n && d.keys[u] == k;
      forall w | u < w < n && !dropped(d.keys[w]) ensures rename(d.keys[w]) != rename(d.keys[u]) {
        assert d.keys[w] in d.entries && d.keys[w] != k;
      }
      RemappedPrefixLastWins(d, dropped, rename, n, u);
    }
  }

  /** A dict whose keys are all kept and renamed to themselves is rebuilt as it was. */
  lemma RemappedOfFixed<V>(d: Dict<V>, dropped: string -> bool, rename: string -> string)
    requires d.Valid()
    requires forall k :: k in d.entries ==> !dropped(k) && rename(k) == k
    ensures RemappedPrefix(d, dropped, rename, |d.keys|) == d
  {
    RemappedPrefixOfFixedKeys(d, dropped, rename, |d.keys|);
    assert d.keys[..|d.keys|] == d.keys;
    assert Listed(d, d.keys) == d.entries;
  }

  /**
   * When a kept key is renamed to a kept key that renaming leaves alone, every
   * key of the rebuilt dict is kept and left alone.
   */
  lemma RemappedKeyFixed<V>(d: Dict<V>, dropped: string -> bool, rename: string -> string, k: string)
    requires d.Valid()
    requires forall k :: k in d.entries && !dropped(k) ==> !dropped(rename(k)) && rename(rename(k)) == rename(k)
    requires k in RemappedPrefix(d, dropped, rename, |d.keys|).entries
    ensures !dropped(k) && rename(k) == k
  {
    var source := RemappedSource(d, dropped, rename, k);
  }

  /**
   * When a kept key is renamed to a kept key that renaming leaves alone,
   * rebuilding the rebuilt dict gives it back unchanged.
   */
  lemma RemappedIdempotent<V>(d: Dict<V>, dropped: string -> bool, rename: string -> string)
    requires d.Valid()
    requires forall k :: k in d.entries && !dropped(k) ==> !dropped(rename(k)) && rename(rename(k)) == rename(k)
    ensures var once := RemappedPrefix(d, dropped, rename, |d.keys|);
      once.Valid() && RemappedPrefix(once, dropped, rename, |once.keys|) == once
  {
    var once := RemappedPrefix(d, dropped, rename, |d.keys|);
    RemappedPrefixValid(d, dropped, rename, |d.keys|);
    forall k | k in once.entries ensures !dropped(k) && rename(k) == k {
      RemappedKeyFixed(d, dropped, rename, k);
    }
    RemappedOfFixed(once, dropped, rename);
  }
}
