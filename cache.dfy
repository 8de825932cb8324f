/**
 * The in-memory part of `JsonCacheProvider` (addon.py:181-276): a map from
 * string keys to ratios, with the key derived from an IMDb id when there is
 * one and from the normalised title and year otherwise. Reading and writing
 * the JSON file are left to the host; only whether the file exists and can be
 * removed reaches `clear`.
 */
module Cache {
  import opened Wrappers
  import opened Strings
  import opened Numbers

  const IdKeyPrefix: string := "imdb:"

  /** `_make_key(title, year, imdb_id)`, with Python's falsy `None`, `""` and
      `0` written as `""` and `0`. */
  function MakeKey(title: string, year: int, imdbId: string): string {
    if imdbId != [] then IdKeyPrefix + imdbId
    else
      var key := Lower(Strip(title));
      if year != 0 then key + " (" + IntToString(year) + ")" else key
  }

  /** An IMDb id decides the key alone: title and year do not matter. */
  lemma IdKeyIgnoresTitleAndYear(t1: string, y1: int, t2: string, y2: int, imdbId: string)
    requires imdbId != []
    ensures MakeKey(t1, y1, imdbId) == MakeKey(t2, y2, imdbId)
  {
  }

  /** Different IMDb ids give different keys. */
  lemma IdKeysApart(t: string, y: int, id1: string, id2: string)
    requires id1 != [] && id2 != [] && id1 != id2
    ensures MakeKey(t, y, id1) != MakeKey(t, y, id2)
  {
    var k1, k2 := MakeKey(t, y, id1), MakeKey(t, y, id2);
    assert k1[|IdKeyPrefix|..] == id1;
    assert k2[|IdKeyPrefix|..] == id2;
  }

  /** Title keys ignore letter case. */
  lemma TitleKeyCaseInsensitive(t1: string, t2: string, year: int)
    requires SameUpToCase(t1, t2)
    ensures MakeKey(t1, year, []) == MakeKey(t2, year, [])
  {
    StripLowerSameUpToCase(t1, t2);
  }

  /** Title keys ignore surrounding whitespace. */
  lemma TitleKeyIgnoresOuterSpace(t: string, year: int)
    ensures MakeKey(Strip(t), year, []) == MakeKey(t, year, [])
  {
    StripIdempotent(t);
  }

  /** One title in two different years gives two different keys. */
  lemma YearsKeepKeysApart(t: string, y1: int, y2: int)
    requires y1 != 0 && y2 != 0 && y1 != y2
    ensures MakeKey(t, y1, []) != MakeKey(t, y2, [])
  {
    ParseIntToString(y1);
    ParseIntToString(y2);
    var k := Lower(Strip(t));
    var s1, s2 := IntToString(y1), IntToString(y2);
    var a, b := MakeKey(t, y1, []), MakeKey(t, y2, []);
    if |s1| == |s2| {
      assert a[|k| + 2..|k| + 2 + |s1|] == s1;
      assert b[|k| + 2..|k| + 2 + |s2|] == s2;
    } else {
      assert |a| != |b|;
    }
  }

  /** `self._cache.get(key)` with the stored integer read back by `int()`. */
  function Lookup(entries: map<string, int>, key: string): (r: Option<int>)
    ensures r.Some? <==> key in entries
    ensures r.Some? ==> r.value == entries[key]
  {
    if key in entries then Some(entries[key]) else None
  }

  /** After a store, a get with the same arguments returns the stored ratio. */
  lemma GetAfterStore(m: map<string, int>, title: string, year: int, ratio: int, imdbId: string)
    ensures Lookup(m[MakeKey(title, year, imdbId) := ratio], MakeKey(title, year, imdbId)) == Some(ratio)
  {
  }

  /** A ratio stored under an IMDb id is found with any title and year. */
  lemma GetByIdAfterStore(m: map<string, int>, t1: string, y1: int, t2: string, y2: int, ratio: int, imdbId: string)
    requires imdbId != []
    ensures Lookup(m[MakeKey(t1, y1, imdbId) := ratio], MakeKey(t2, y2, imdbId)) == Some(ratio)
  {
    IdKeyIgnoresTitleAndYear(t1, y1, t2, y2, imdbId);
  }

  /** A ratio stored under a title is found with the title in another letter case. */
  lemma GetOtherCaseAfterStore(m: map<string, int>, t1: string, t2: string, year: int, ratio: int)
    requires SameUpToCase(t1, t2)
    ensures Lookup(m[MakeKey(t1, year, []) := ratio], MakeKey(t2, year, [])) == Some(ratio)
  {
    TitleKeyCaseInsensitive(t1, t2, year);
  }

  /** A second store under the same key replaces the first. */
  lemma StoreOverwrites(m: map<string, int>, title: string, year: int, r1: int, r2: int, imdbId: string)
    ensures var k := MakeKey(title, year, imdbId);
            m[k := r1][k := r2] == m[k := r2]
  {
  }

  /** A store leaves every other key as it was. */
  lemma StoreKeepsOtherKeys(m: map<string, int>, title: string, year: int, ratio: int, imdbId: string, key: string)
    requires key != MakeKey(title, year, imdbId)
    ensures Lookup(m[MakeKey(title, year, imdbId) := ratio], key) == Lookup(m, key)
  {
  }

  /** Storing a title under one year does not disturb the entry for another year. */
  lemma StoreOtherYearKeepsEntry(m: map<string, int>, title: string, y1: int, y2: int, ratio: int)
    requires y1 != 0 && y2 != 0 && y1 != y2
    ensures Lookup(m[MakeKey(title, y2, []) := ratio], MakeKey(title, y1, [])) == Lookup(m, MakeKey(title, y1, []))
  {
    YearsKeepKeysApart(title, y1, y2);
  }

  /** The ratio cache of the service. `enabled` is whether the file is written
      back; the map is read and updated in memory either way. */
  class RatioCache {
    var entries: map<string, int>
    var enabled: bool
    /** Whether `get_writable_cache_path` found a path for the cache file. */
    const hasPath: bool

    /** `JsonCacheProvider(enabled)`: `loaded` is what `_load` reads from the
        file; without a path the cache is disabled. */
    constructor (enable: bool, path: bool, loaded: map<string, int>)
      ensures hasPath == path && enabled == (enable && path)
      ensures entries == if enable && path then loaded else map[]
    {
      hasPath := path;
      entries := map[];
      enabled := enable;
      if enable && path {
        entries := loaded;
      } else if enable && !path {
        enabled := false;
      }
    }

    /** `get(title, year, imdb_id)` */
    method Get(title: string, year: int, imdbId: string) returns (r: Option<int>)
      ensures r == Lookup(entries, MakeKey(title, year, imdbId))
    {
      var key := MakeKey(title, year, imdbId);
      if key in entries {
        r := Some(entries[key]);
      } else {
        r := None;
      }
    }

    /** `store(title, year, ratio, imdb_id)`: no validation of the ratio. */
    method Store(title: string, year: int, ratio: int, imdbId: string)
      modifies this
      ensures entries == old(entries)[MakeKey(title, year, imdbId) := ratio]
      ensures enabled == old(enabled)
    {
      var key := MakeKey(title, year, imdbId);
      entries := entries[key := ratio];
    }

    /** `clear()`: the map always ends empty; `True` only when there is a path,
        the file exists and removing it does not raise. */
    method Clear(fileExists: bool, removeOk: bool) returns (removed: bool)
      modifies this
      ensures entries == map[] && enabled == old(enabled)
      ensures removed == (hasPath && fileExists && removeOk)
    {
      entries := map[];
      removed := false;
      if hasPath && fileExists {
        if removeOk {
          removed := true;
        }
      }
    }
  }
}
