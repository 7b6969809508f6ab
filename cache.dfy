/** The translation cache: one directory per document fingerprint, each holding an
    update-time file and one file per translated paragraph. The directory tree is
    the state of a `CacheStore`; the listing order of the directories is the order
    of its sequence. */
module Cache {
  import opened Wrappers

  /** How many document directories survive an eviction. */
  const MaxCache: nat := 5

  /** What a directory's `update_time` file holds. */
  datatype Stamp = Written(t: int) | Unreadable | Missing

  /** What `get_time` returns: the stored time, or +∞ when the file is missing. */
  datatype Time = Finite(t: int) | Infinity

  predicate TimeLe(a: Time, b: Time)
  {
    b.Infinity? || (a.Finite? && a.t <= b.t)
  }

  /** `get_time(dir)`: `None` when reading the file raises. */
  function GetTime(s: Stamp): (r: Option<Time>)
    ensures r.None? <==> s.Unreadable?
    ensures r == Some(Infinity) <==> s.Missing?
  {
    match s
    case Written(t) => Some(Finite(t))
    case Unreadable => None
    case Missing => Some(Infinity)
  }

  datatype Dir = Dir(key: string, stamp: Stamp, paragraphs: map<string, string>)

  /** `argmin(xs)`: the index of the first smallest element. */
  function Argmin(xs: seq<Time>): (r: nat)
    requires |xs| > 0
    ensures r < |xs|
    ensures forall j :: 0 <= j < |xs| ==> TimeLe(xs[r], xs[j])
    ensures forall j :: 0 <= j < r ==> !TimeLe(xs[j], xs[r])
  {
    if |xs| == 1 then 0
    else
      var r := Argmin(xs[1..]) + 1;
      if TimeLe(xs[0], xs[r]) then 0 else r
  }

  predicate AllReadable(ds: seq<Dir>)
  {
    forall k :: 0 <= k < |ds| ==> !ds[k].stamp.Unreadable?
  }

  /** The times of the listed directories, all of them readable. */
  function Times(ds: seq<Dir>): (ts: seq<Time>)
    requires AllReadable(ds)
    ensures |ts| == |ds| && forall k :: 0 <= k < |ds| ==> Some(ts[k]) == GetTime(ds[k].stamp)
  {
    seq(|ds|, k requires 0 <= k < |ds| => GetTime(ds[k].stamp).value)
  }

  function TimeOf(d: Dir): Time
    requires !d.stamp.Unreadable?
  {
    GetTime(d.stamp).value
  }

  /** The first pass of `remove_extra`: the directories whose time file can be read. */
  function Readable(ds: seq<Dir>): (r: seq<Dir>)
    ensures AllReadable(r) && |r| <= |ds|
  {
    if |ds| == 0 then []
    else if ds[|ds| - 1].stamp.Unreadable? then Readable(ds[..|ds| - 1])
    else Readable(ds[..|ds| - 1]) + [ds[|ds| - 1]]
  }

  /** The first pass deletes exactly the directories whose time cannot be read. */
  lemma {:induction false} ReadableKeeps(ds: seq<Dir>)
    ensures forall d :: d in Readable(ds) <==> d in ds && !d.stamp.Unreadable?
  {
    if |ds| > 0 {
      var init := ds[..|ds| - 1];
      ReadableKeeps(init);
      assert ds == init + [ds[|ds| - 1]];
    }
  }

  function RemoveAt(ds: seq<Dir>, i: nat): (r: seq<Dir>)
    requires i < |ds|
    ensures |r| == |ds| - 1
  {
    ds[..i] + ds[i + 1..]
  }

  /** The second loop of `remove_extra`: while more than `MaxCache` directories are
      listed, the one with the first smallest time is deleted. */
  function Evict(ds: seq<Dir>): (r: seq<Dir>)
    requires AllReadable(ds)
    ensures AllReadable(r)
    decreases |ds|
  {
    if |ds| <= MaxCache then ds
    else
      var a := Argmin(Times(ds));
      RemoveAtFacts(ds, a);
      Evict(RemoveAt(ds, a))
  }

  lemma RemoveAtFacts(ds: seq<Dir>, i: nat)
    requires i < |ds|
    ensures forall d :: d in RemoveAt(ds, i) ==> d in ds
    ensures forall k :: 0 <= k < |ds| && k != i ==> ds[k] in RemoveAt(ds, i)
    ensures AllReadable(ds) ==> AllReadable(RemoveAt(ds, i))
  {
    var r := RemoveAt(ds, i);
    forall k | 0 <= k < |ds| && k != i ensures ds[k] in r {
      if k < i { assert r[k] == ds[k]; } else { assert r[k - 1] == ds[k]; }
    }
    if AllReadable(ds) {
      forall k | 0 <= k < |r| ensures !r[k].stamp.Unreadable? {
        if k < i { assert r[k] == ds[k]; } else { assert r[k] == ds[k + 1]; }
      }
    }
  }

  /** One step of the first pass of `remove_extra`: deleting the `i`th listed
      directory when its time cannot be read. */
  lemma ReadableStep(ds: seq<Dir>, i: nat, cur: seq<Dir>)
    requires i < |ds| && cur == Readable(ds[..i]) + ds[i..]
    ensures |Readable(ds[..i])| < |cur|
    ensures (if ds[i].stamp.Unreadable? then RemoveAt(cur, |Readable(ds[..i])|) else cur) == Readable(ds[..i + 1]) + ds[i + 1..]
  {
    ReadablePrefix(ds, i);
    assert ds[i..][1..] == ds[i + 1..];
    DropAt(Readable(ds[..i]), ds[i..], cur);
  }

  lemma ReadablePrefix(ds: seq<Dir>, i: nat)
    requires i < |ds|
    ensures Readable(ds[..i + 1]) == if ds[i].stamp.Unreadable? then Readable(ds[..i]) else Readable(ds[..i]) + [ds[i]]
  {
    assert ds[..i + 1][..i] == ds[..i];
  }

  lemma DropAt(kept: seq<Dir>, rest: seq<Dir>, cur: seq<Dir>)
    requires |rest| > 0 && cur == kept + rest
    ensures |kept| < |cur| && RemoveAt(cur, |kept|) == kept + rest[1..]
    ensures cur == (kept + [rest[0]]) + rest[1..]
  {
    assert cur[..|kept|] == kept;
    assert cur[|kept| + 1..] == rest[1..];
  }

  /** Eviction keeps `MaxCache` directories, or all of them when there are no more,
      and keeps only directories that were listed. */
  lemma {:induction false} EvictKeeps(ds: seq<Dir>)
    requires AllReadable(ds)
    ensures |Evict(ds)| == if |ds| <= MaxCache then |ds| else MaxCache
    ensures |ds| <= MaxCache ==> Evict(ds) == ds
    ensures forall d :: d in Evict(ds) ==> d in ds
    decreases |ds|
  {
    if |ds| > MaxCache {
      var a := Argmin(Times(ds));
      RemoveAtFacts(ds, a);
      EvictKeeps(RemoveAt(ds, a));
    }
  }

  /** The directory `Argmin` picks is no newer than any readable directory listed. */
  lemma ArgminOldest(ds: seq<Dir>, kept: seq<Dir>)
    requires AllReadable(ds) && |ds| > 0 && AllReadable(kept)
    requires forall d :: d in kept ==> d in ds
    ensures forall j :: 0 <= j < |kept| ==> TimeLe(TimeOf(ds[Argmin(Times(ds))]), TimeOf(kept[j]))
  {
    var ts := Times(ds);
    forall j | 0 <= j < |kept| ensures TimeLe(TimeOf(ds[Argmin(ts)]), TimeOf(kept[j])) {
      assert kept[j] in kept && kept[j] in ds;
      var q :| 0 <= q < |ds| && ds[q] == kept[j];
      assert TimeLe(ts[Argmin(ts)], ts[q]);
    }
  }

  /** Every evicted directory is at least as old as every kept one: eviction always
      takes a smallest time. */
  lemma {:induction false} EvictOldestFirst(ds: seq<Dir>)
    requires AllReadable(ds)
    ensures var kept := Evict(ds);
      forall i, j :: 0 <= i < |ds| && 0 <= j < |kept| && ds[i] !in kept ==> TimeLe(TimeOf(ds[i]), TimeOf(kept[j]))
    decreases |ds|
  {
    if |ds| > MaxCache {
      var a := Argmin(Times(ds));
      var rest := RemoveAt(ds, a);
      RemoveAtFacts(ds, a);
      EvictOldestFirst(rest);
      EvictKeeps(rest);
      var kept := Evict(rest);
      assert kept == Evict(ds);
      ArgminOldest(ds, kept);
      forall i | 0 <= i < |ds| && i != a ensures ds[i] in rest {
      }
    }
  }

  /** A directory without a time file reads as infinitely new, so it is evicted only
      when every directory kept lacks one too. */
  lemma MissingEvictedLast(ds: seq<Dir>)
    requires AllReadable(ds)
    ensures forall i, j :: 0 <= i < |ds| && 0 <= j < |Evict(ds)| && ds[i] !in Evict(ds) && ds[i].stamp.Missing? ==>
      Evict(ds)[j].stamp.Missing?
  {
    EvictOldestFirst(ds);
  }

  function IndexOf(ds: seq<Dir>, key: string): (r: Option<nat>)
    ensures r.Some? ==> r.value < |ds| && ds[r.value].key == key
    ensures r.None? ==> forall k :: 0 <= k < |ds| ==> ds[k].key != key
  {
    if |ds| == 0 then None
    else if ds[|ds| - 1].key == key then Some(|ds| - 1)
    else IndexOf(ds[..|ds| - 1], key)
  }

  class CacheStore {
    var dirs: seq<Dir>

    /** Directory names are unique. */
    predicate Valid()
      reads this
    {
      UniqueKeys(dirs)
    }

    constructor(listing: seq<Dir>)
      requires UniqueKeys(listing)
      ensures Valid() && dirs == listing
    {
      dirs := listing;
    }

    /** `is_cached(hashKey)`. */
    predicate IsCached(key: string)
      reads this
    {
      IndexOf(dirs, key).Some?
    }

    function Lookup(key: string): Option<Dir>
      reads this
    {
      match IndexOf(dirs, key)
      case None => None
      case Some(i) => Some(dirs[i])
    }

    /** `load_paragraph(hashKey, hashKeyParagraph)`: `None` when the file is absent. */
    function LoadParagraph(key: string, pkey: string): (r: Option<string>)
      reads this
      ensures r.Some? ==> IsCached(key)
      ensures r.Some? <==> Lookup(key).Some? && pkey in Lookup(key).value.paragraphs
    {
      match Lookup(key)
      case None => None
      case Some(d) => if pkey in d.paragraphs then Some(d.paragraphs[pkey]) else None
    }

    /** `remove_extra()`. */
    method RemoveExtra()
      requires Valid()
      modifies this
      ensures Valid() && dirs == Evict(Readable(old(dirs)))
    {
      DropUnreadable();
      DropOldest();
    }

    /** The first loop of `remove_extra`: directories without a readable time
        are deleted. */
    method DropUnreadable()
      requires Valid()
      modifies this
      ensures Valid() && dirs == Readable(old(dirs))
    {
      var listed := dirs;
      var i := 0;
      while i < |listed|
        invariant 0 <= i <= |listed|
        invariant dirs == Readable(listed[..i]) + listed[i..]
        invariant UniqueKeys(dirs)
      {
        ReadableStep(listed, i, dirs);
        if listed[i].stamp.Unreadable? {
          RemoveAtUnique(dirs, |Readable(listed[..i])|);
          dirs := RemoveAt(dirs, |Readable(listed[..i])|);
        }
        i := i + 1;
      }
      assert listed[..i] == listed && listed[i..] == [];
    }

    /** The second loop of `remove_extra`. */
    method DropOldest()
      requires Valid() && AllReadable(dirs)
      modifies this
      ensures Valid() && dirs == Evict(old(dirs))
    {
      while |dirs| > MaxCache
        invariant AllReadable(dirs) && Evict(dirs) == Evict(old(dirs))
        invariant UniqueKeys(dirs)
        decreases |dirs|
      {
        var times := Times(dirs);
        var arg := Argmin(times);
        RemoveAtFacts(dirs, arg);
        RemoveAtUnique(dirs, arg);
        dirs := dirs[..arg] + dirs[arg + 1..];
      }
      assert Evict(dirs) == dirs;
    }

    /** `create_cache(hashKey)` at time `now`: the directory exists afterwards with a
        fresh time; its paragraphs, and every other directory, are untouched. */
    method CreateCache(key: string, now: int)
      requires Valid()
      modifies this
      ensures Valid() && IsCached(key)
      ensures Lookup(key).value.stamp == Written(now)
      ensures Lookup(key).value.paragraphs == if old(IsCached(key)) then old(Lookup(key)).value.paragraphs else map[]
      ensures forall k :: k != key ==> Lookup(k) == old(Lookup(k))
    {
      var at := IndexOf(dirs, key);
      if at.Some? {
        var d := dirs[at.value];
        dirs := dirs[at.value := Dir(key, Written(now), d.paragraphs)];
        LookupReplaced(old(dirs), dirs, at.value);
      } else {
        LookupAppended(dirs, Dir(key, Written(now), map[]));
        dirs := dirs + [Dir(key, Written(now), map[])];
      }
    }

    /** `write_paragraph(hashKey, hashKeyParagraph, paragraph)`; opening the file
        fails when the document directory does not exist. */
    method WriteParagraph(key: string, pkey: string, paragraph: string) returns (ok: bool)
      requires Valid()
      modifies this
      ensures Valid() && ok == old(IsCached(key))
      ensures ok ==> LoadParagraph(key, pkey) == Some(paragraph)
      ensures ok ==> Lookup(key).value.stamp == old(Lookup(key)).value.stamp
      ensures forall k, p :: (k != key || p != pkey) ==> LoadParagraph(k, p) == old(LoadParagraph(k, p))
      ensures !ok ==> dirs == old(dirs)
      ensures ok ==> Lookup(key) == Some(old(Lookup(key)).value.(paragraphs := old(Lookup(key)).value.paragraphs[pkey := paragraph]))
      ensures forall k :: k != key ==> Lookup(k) == old(Lookup(k))
    {
      var at := IndexOf(dirs, key);
      if at.None? {
        return false;
      }
      var d := dirs[at.value];
      dirs := dirs[at.value := Dir(key, d.stamp, d.paragraphs[pkey := paragraph])];
      LookupReplaced(old(dirs), dirs, at.value);
      ok := true;
    }
  }

  predicate UniqueKeys(ds: seq<Dir>)
  {
    forall i, j :: 0 <= i < j < |ds| ==> ds[i].key != ds[j].key
  }

  /** Deleting a directory keeps the names unique. */
  lemma RemoveAtUnique(ds: seq<Dir>, i: nat)
    requires UniqueKeys(ds) && i < |ds|
    ensures UniqueKeys(RemoveAt(ds, i))
  {
    var r := RemoveAt(ds, i);
    forall a, b | 0 <= a < b < |r| ensures r[a].key != r[b].key {
      var a' := if a < i then a else a + 1;
      var b' := if b < i then b else b + 1;
      assert r[a] == ds[a'] && r[b] == ds[b'];
    }
  }

  /** With unique names, `IndexOf` finds the one directory of that name. */
  lemma {:induction false} IndexOfUnique(ds: seq<Dir>, key: string, i: nat)
    requires UniqueKeys(ds) && i < |ds| && ds[i].key == key
    ensures IndexOf(ds, key) == Some(i)
    decreases |ds|
  {
    if i < |ds| - 1 {
      IndexOfUnique(ds[..|ds| - 1], key, i);
    }
  }

  /** Changing the contents of the directory at `at`, but not its name, leaves every
      other directory's lookup alone. */
  lemma {:induction false} LookupReplaced(before: seq<Dir>, after: seq<Dir>, at: nat)
    requires UniqueKeys(before) && at < |before| == |after| && after[at].key == before[at].key
    requires forall k :: 0 <= k < |before| && k != at ==> after[k] == before[k]
    ensures UniqueKeys(after) && IndexOf(after, after[at].key) == Some(at)
    ensures forall k :: k != after[at].key ==> IndexOf(after, k) == IndexOf(before, k)
  {
    assert forall k :: 0 <= k < |before| ==> after[k].key == before[k].key;
    IndexOfUnique(after, after[at].key, at);
    forall k | k != after[at].key ensures IndexOf(after, k) == IndexOf(before, k) {
      match IndexOf(before, k)
      case Some(q) => IndexOfUnique(after, k, q);
      case None =>
    }
  }

  /** Appending a directory of a new name leaves every other lookup alone. */
  lemma {:induction false} LookupAppended(before: seq<Dir>, d: Dir)
    requires UniqueKeys(before) && IndexOf(before, d.key).None?
    ensures UniqueKeys(before + [d]) && IndexOf(before + [d], d.key) == Some(|before|)
    ensures forall k :: k != d.key ==> IndexOf(before + [d], k) == IndexOf(before, k)
  {
    assert (before + [d])[..|before|] == before;
  }
}
