/** Ad removal from an HLS playlist: the segment files are grouped by frame
    rate, the smallest group is taken to be the inserted advertisement, and
    every playlist line naming one of its files is dropped together with the
    tag line just before it. */
module M3u8 {
  import opened Wrappers
  import opened Text

  // ---------------------------------------------------------------
  // Grouping segment files by frame rate (`analyses`)
  // ---------------------------------------------------------------

  /** The files of `data` whose frame rate is `fps`, in input order: the
      list the grouping loop leaves under key `fps`. */
  function FilesWith<F(==)>(data: seq<(string, F)>, fps: F): (r: seq<string>)
    ensures |r| <= |data|
  {
    if |data| == 0 then []
    else FilesWith(data[..|data| - 1], fps) + (if data[|data| - 1].1 == fps then [data[|data| - 1].0] else [])
  }

  /** The distinct frame rates of `data` in first-seen order: the key order
      of the grouping dictionary. */
  function Rates<F(==)>(data: seq<(string, F)>): (r: seq<F>)
    ensures |r| <= |data|
    ensures |data| > 0 ==> |r| > 0
  {
    if |data| == 0 then []
    else
      var p := Rates(data[..|data| - 1]);
      if data[|data| - 1].1 in p then p else p + [data[|data| - 1].1]
  }

  /** Python's `min(keys, key=len)`: the position of the first key whose
      group is smallest. */
  function Fewest<F(==)>(data: seq<(string, F)>, keys: seq<F>): (j: nat)
    requires |keys| > 0
    ensures j < |keys|
    ensures forall i :: 0 <= i < |keys| ==> |FilesWith(data, keys[j])| <= |FilesWith(data, keys[i])|
    ensures forall i :: 0 <= i < j ==> |FilesWith(data, keys[i])| > |FilesWith(data, keys[j])|
  {
    if |keys| == 1 then 0
    else
      var b := Fewest(data, keys[..|keys| - 1]);
      if |FilesWith(data, keys[|keys| - 1])| < |FilesWith(data, keys[b])| then |keys| - 1 else b
  }

  /** A key with as few files as the chosen one is not listed before it. */
  lemma FewestFirst<F>(data: seq<(string, F)>, keys: seq<F>, b: nat)
    requires b < |keys| && |FilesWith(data, keys[b])| == |FilesWith(data, keys[Fewest(data, keys)])|
    ensures Fewest(data, keys) <= b
  {
  }

  /** The frame rate whose files `analyses` returns. */
  function MinorityRate<F(==)>(data: seq<(string, F)>): F
    requires |data| > 0
  {
    Rates(data)[Fewest(data, Rates(data))]
  }

  /** The result of `analyses`: nothing for an empty input, otherwise the
      files of the minority frame rate. */
  function Minority<F(==)>(data: seq<(string, F)>): Option<seq<string>>
  {
    if |data| == 0 then None else Some(FilesWith(data, MinorityRate(data)))
  }

  /** `analyses`: fills the frame-rate dictionary in one pass, then picks
      the key with the fewest files. */
  method Analyses<F(==)>(data: seq<(string, F)>) returns (r: Option<seq<string>>)
    ensures r == Minority(data)
    ensures r.None? <==> |data| == 0
  {
    var groups: map<F, seq<string>> := map[];
    var order: seq<F> := [];
    var k := 0;
    while k < |data|
      invariant 0 <= k <= |data|
      invariant order == Rates(data[..k])
      invariant forall g :: g in groups <==> g in order
      invariant forall g :: g in groups ==> groups[g] == FilesWith(data[..k], g)
    {
      var (file, fps) := data[k];
      assert data[..k + 1][..k] == data[..k];
      if fps in groups {
        groups := groups[fps := groups[fps] + [file]];
      } else {
        FilesWithAbsent(data[..k], fps);
        groups := groups[fps := [file]];
        order := order + [fps];
      }
      k := k + 1;
    }
    assert data[..k] == data;
    if |order| == 0 {
      r := None;
    } else {
      var j := Fewest(data, order);
      r := Some(groups[order[j]]);
    }
  }

  /** A frame rate that does not occur has no files. */
  lemma {:induction false} FilesWithAbsent<F>(data: seq<(string, F)>, g: F)
    requires g !in Rates(data)
    ensures |FilesWith(data, g)| == 0
    decreases |data|
  {
    if |data| > 0 {
      FilesWithAbsent(data[..|data| - 1], g);
    }
  }

  /** Each key is recorded once. */
  lemma {:induction false} RatesDistinct<F>(data: seq<(string, F)>)
    ensures forall i, j :: 0 <= i < j < |Rates(data)| ==> Rates(data)[i] != Rates(data)[j]
    decreases |data|
  {
    if |data| > 0 {
      RatesDistinct(data[..|data| - 1]);
    }
  }

  /** The frame rate of every file is a key. */
  lemma {:induction false} RatesHas<F>(data: seq<(string, F)>, k: nat)
    requires k < |data|
    ensures data[k].1 in Rates(data)
    decreases |data|
  {
    var d := data[..|data| - 1];
    if k < |d| {
      RatesHas(d, k);
      assert d[k] == data[k];
    }
  }

  /** A frame rate no file has is not a key. */
  lemma {:induction false} RatesOnly<F>(data: seq<(string, F)>, g: F)
    requires forall k :: 0 <= k < |data| ==> data[k].1 != g
    ensures g !in Rates(data)
    decreases |data|
  {
    if |data| > 0 {
      var d := data[..|data| - 1];
      assert forall k :: 0 <= k < |d| ==> d[k].1 != g by {
        forall k | 0 <= k < |d| ensures d[k].1 != g { assert d[k] == data[k]; }
      }
      RatesOnly(d, g);
    }
  }

  /** Every key is the frame rate of some file. */
  lemma {:induction false} RatesOccur<F>(data: seq<(string, F)>, g: F)
    requires g in Rates(data)
    ensures exists k :: 0 <= k < |data| && data[k].1 == g
    decreases |data|
  {
    var d := data[..|data| - 1];
    if g in Rates(d) {
      RatesOccur(d, g);
      var k :| 0 <= k < |d| && d[k].1 == g;
      assert data[k] == d[k];
    }
  }

  /** Every key has at least one file. */
  lemma {:induction false} RatesNonEmpty<F>(data: seq<(string, F)>, g: F)
    requires g in Rates(data)
    ensures |FilesWith(data, g)| > 0
    decreases |data|
  {
    var d := data[..|data| - 1];
    if g in Rates(d) {
      RatesNonEmpty(d, g);
    }
  }

  /** The keys of the grouping dictionary are exactly the frame rates that
      occur, each once, and each with at least one file. */
  lemma RatesExact<F>(data: seq<(string, F)>)
    ensures forall i, j :: 0 <= i < j < |Rates(data)| ==> Rates(data)[i] != Rates(data)[j]
    ensures forall g :: g in Rates(data) <==> exists k :: 0 <= k < |data| && data[k].1 == g
    ensures forall g :: g in Rates(data) ==> |FilesWith(data, g)| > 0
  {
    RatesDistinct(data);
    forall g ensures g in Rates(data) <==> exists k :: 0 <= k < |data| && data[k].1 == g {
      if g in Rates(data) {
        RatesOccur(data, g);
      } else if exists k :: 0 <= k < |data| && data[k].1 == g {
        var k :| 0 <= k < |data| && data[k].1 == g;
        RatesHas(data, k);
      }
    }
    forall g | g in Rates(data) ensures |FilesWith(data, g)| > 0 {
      RatesNonEmpty(data, g);
    }
  }

  /** Each file of `data` (file names being distinct, as dictionary keys
      are) is in the group of exactly its own frame rate. */
  lemma {:induction false} FilesWithExact<F>(data: seq<(string, F)>, g: F, k: nat)
    requires forall i, j :: 0 <= i < j < |data| ==> data[i].0 != data[j].0
    requires k < |data|
    ensures data[k].0 in FilesWith(data, g) <==> data[k].1 == g
    decreases |data|
  {
    var n := |data| - 1;
    var d := data[..n];
    if k < n {
      FilesWithExact(d, g, k);
      assert data[k].0 != data[n].0;
    } else {
      assert data[k].0 !in FilesWith(d, g) by {
        if data[k].0 in FilesWith(d, g) {
          FilesWithFrom(d, g, data[k].0);
        }
      }
    }
  }

  /** Every grouped file is a file of the input with that frame rate. */
  lemma {:induction false} FilesWithFrom<F>(data: seq<(string, F)>, g: F, f: string)
    requires f in FilesWith(data, g)
    ensures exists k :: 0 <= k < |data| && data[k] == (f, g)
    decreases |data|
  {
    var n := |data| - 1;
    var d := data[..n];
    if f in FilesWith(d, g) {
      FilesWithFrom(d, g, f);
      var k :| 0 <= k < |d| && d[k] == (f, g);
      assert data[k] == (f, g);
    } else {
      assert data[n] == (f, g);
    }
  }

  /** Keys are recorded in first-seen order: a key listed before the key
      of the file at position `k` has a file before position `k`. */
  lemma {:induction false} RatesOrder<F>(data: seq<(string, F)>, k: nat, a: nat, b: nat)
    requires k < |data| && a < b < |Rates(data)| && Rates(data)[b] == data[k].1
    ensures exists m :: 0 <= m < k && data[m].1 == Rates(data)[a]
    decreases |data|
  {
    var n := |data| - 1;
    var d := data[..n];
    var keys := Rates(data);
    var prev := Rates(d);
    RatesDistinct(data);
    if k < n {
      assert d[k] == data[k];
      RatesHas(d, k);
      var b' :| 0 <= b' < |prev| && prev[b'] == data[k].1;
      assert keys[b'] == prev[b'];
      assert b' == b;
      RatesOrder(d, k, a, b);
      var m :| 0 <= m < k && d[m].1 == prev[a];
      assert data[m] == d[m];
    } else if data[n].1 in prev {
      RatesOccur(d, data[n].1);
      var m' :| 0 <= m' < |d| && d[m'].1 == data[n].1;
      RatesOrder(d, m', a, b);
      var m :| 0 <= m < m' && d[m].1 == prev[a];
      assert data[m] == d[m];
    } else {
      assert keys == prev + [data[n].1];
      assert b == |prev| by {
        assert keys[|prev|] == keys[b];
      }
      assert prev[a] in prev;
      RatesOccur(d, prev[a]);
      var m :| 0 <= m < |d| && d[m].1 == prev[a];
      assert data[m] == d[m];
    }
  }

  /** `analyses` on a non-empty input: the result is the group of a frame
      rate that occurs, no group is smaller, and every file with that rate
      is in it while no other file is. */
  lemma MinorityChoice<F>(data: seq<(string, F)>)
    requires |data| > 0
    requires forall i, j :: 0 <= i < j < |data| ==> data[i].0 != data[j].0
    ensures Minority(data).Some?
    ensures exists k :: 0 <= k < |data| && data[k].1 == MinorityRate(data)
    ensures forall k :: 0 <= k < |data| ==>
      |FilesWith(data, MinorityRate(data))| <= |FilesWith(data, data[k].1)|
    ensures forall k :: 0 <= k < |data| ==>
      (data[k].0 in Minority(data).value <==> data[k].1 == MinorityRate(data))
  {
    var keys := Rates(data);
    var c := keys[Fewest(data, keys)];
    RatesExact(data);
    assert c in keys;
    forall k | 0 <= k < |data| ensures |FilesWith(data, c)| <= |FilesWith(data, data[k].1)| {
      RatesHas(data, k);
    }
    forall k | 0 <= k < |data| ensures data[k].0 in Minority(data).value <==> data[k].1 == c {
      FilesWithExact(data, c, k);
    }
  }

  /** Ties go to the frame rate seen first: wherever a file of another
      rate with a group of the same size appears, a file of the chosen rate
      has appeared before it. */
  lemma MinorityFirstSeen<F>(data: seq<(string, F)>, k: nat)
    requires k < |data|
    requires data[k].1 != MinorityRate(data)
    requires |FilesWith(data, data[k].1)| == |FilesWith(data, MinorityRate(data))|
    ensures exists i :: 0 <= i < k && data[i].1 == MinorityRate(data)
  {
    var keys := Rates(data);
    var j := Fewest(data, keys);
    RatesHas(data, k);
    var b :| 0 <= b < |keys| && keys[b] == data[k].1;
    assert keys[j] == MinorityRate(data) && j != b;
    FewestFirst(data, keys, b);
    RatesOrder(data, k, j, b);
  }

  // ---------------------------------------------------------------
  // Dropping the lines of the chosen segments (`rebuild_m3u8`)
  // ---------------------------------------------------------------

  /** `any(ts_file in line for ts_file in ts_files)`. */
  predicate Hit(line: string, ts: set<string>)
  {
    exists t :: t in ts && Contains(line, t)
  }

  /** The segment names of a file list: everything after the playlist path. */
  function TsNames(fileList: seq<string>): set<string>
  {
    set k | 1 <= k < |fileList| :: fileList[k]
  }

  /** The indices the removal loop adds to `indices_to_remove` once it has
      reached position `i`: a hit adds itself and the line before it (`-1`
      for a hit on the first line) and skips the next line. */
  function Marked(lines: seq<string>, ts: set<string>, i: nat): (r: set<int>)
    ensures forall k :: k in r ==> i - 1 <= k < |lines|
    decreases |lines| - i
  {
    if i >= |lines| then {}
    else if Hit(lines[i], ts) then {i - 1, i} + Marked(lines, ts, i + 2)
    else Marked(lines, ts, i + 1)
  }

  /** The positions the removal loop examines from position `i` on. */
  function Tested(lines: seq<string>, ts: set<string>, i: nat): (r: set<nat>)
    ensures forall k :: k in r ==> i <= k < |lines|
    decreases |lines| - i
  {
    if i >= |lines| then {}
    else {i} + (if Hit(lines[i], ts) then Tested(lines, ts, i + 2) else Tested(lines, ts, i + 1))
  }

  /** The list comprehension: the lines from position `i` on whose index
      is not in `removed`, in their original order. */
  function KeptFrom<T>(lines: seq<T>, removed: set<int>, i: nat): (r: seq<T>)
    ensures i <= |lines| ==> |r| <= |lines| - i
    decreases |lines| - i
  {
    if i >= |lines| then []
    else (if i in removed then [] else [lines[i]]) + KeptFrom(lines, removed, i + 1)
  }

  /** The new playlist `rebuild_m3u8` writes. */
  function Rebuild(lines: seq<string>, ts: set<string>): seq<string>
  {
    KeptFrom(lines, Marked(lines, ts, 0), 0)
  }

  /** The index loop of `rebuild_m3u8`. */
  method MarkForRemoval(lines: seq<string>, ts: set<string>) returns (remove: set<int>)
    ensures remove == Marked(lines, ts, 0)
  {
    remove := {};
    var i := 0;
    while i < |lines|
      invariant 0 <= i <= |lines| + 1
      invariant remove + Marked(lines, ts, i) == Marked(lines, ts, 0)
      decreases |lines| + 1 - i
    {
      if Hit(lines[i], ts) {
        remove := remove + {i - 1, i};
        i := i + 1;
      }
      i := i + 1;
    }
  }

  /** `rebuild_m3u8` on the playlist's lines: the first entry of the file
      list is the playlist path, the rest name the segments to drop. */
  method RebuildM3u8(fileList: seq<string>, lines: seq<string>) returns (newLines: seq<string>)
    requires |fileList| > 0
    ensures newLines == Rebuild(lines, TsNames(fileList))
  {
    var ts := set k | 1 <= k < |fileList| :: fileList[k];
    var remove := MarkForRemoval(lines, ts);
    newLines := KeptFrom(lines, remove, 0);
  }

  /** One iteration of `main`: the minority group, with the playlist path
      put in front, is handed to `rebuild_m3u8`. An input without segment
      files gives `None`, where the source fails on `None.insert`. */
  method FilterAds<F(==)>(path: string, frameRates: seq<(string, F)>, lines: seq<string>)
    returns (r: Option<seq<string>>)
    ensures r.None? <==> |frameRates| == 0
    ensures r.Some? ==> r.value == Rebuild(lines, set f | f in FilesWith(frameRates, MinorityRate(frameRates)))
  {
    var result := Analyses(frameRates);
    if result.None? {
      r := None;
    } else {
      var fileList := [path] + result.value;
      assert TsNames(fileList) == set f | f in result.value by {
        forall f | f in result.value ensures f in TsNames(fileList) {
          var k :| 0 <= k < |result.value| && result.value[k] == f;
          assert fileList[k + 1] == f;
        }
      }
      var newLines := RebuildM3u8(fileList, lines);
      r := Some(newLines);
    }
  }

  /** Every examined line containing a segment name is removed, and so is
      the line before it. */
  lemma {:induction false} MarkedHits(lines: seq<string>, ts: set<string>, i: nat, j: nat)
    requires j in Tested(lines, ts, i) && Hit(lines[j], ts)
    ensures j in Marked(lines, ts, i) && j - 1 in Marked(lines, ts, i)
    decreases |lines| - i
  {
    if j != i {
      if Hit(lines[i], ts) {
        MarkedHits(lines, ts, i + 2, j);
      } else {
        MarkedHits(lines, ts, i + 1, j);
      }
    }
  }

  /** Nothing else is removed: each removed index is an examined hit or
      the line just before one. */
  lemma {:induction false} MarkedOnlyHits(lines: seq<string>, ts: set<string>, i: nat, k: int)
    requires k in Marked(lines, ts, i)
    ensures (0 <= k && k in Tested(lines, ts, i) && Hit(lines[k], ts))
         || (k + 1 in Tested(lines, ts, i) && Hit(lines[k + 1], ts))
    decreases |lines| - i
  {
    if Hit(lines[i], ts) {
      if k != i && k != i - 1 {
        MarkedOnlyHits(lines, ts, i + 2, k);
      }
    } else {
      MarkedOnlyHits(lines, ts, i + 1, k);
    }
  }

  /** The line right after an examined hit is never examined. */
  lemma {:induction false} TestedSkipsNext(lines: seq<string>, ts: set<string>, i: nat, j: nat)
    requires j in Tested(lines, ts, i) && Hit(lines[j], ts)
    ensures j + 1 !in Tested(lines, ts, i)
    decreases |lines| - i
  {
    if j != i {
      if Hit(lines[i], ts) {
        TestedSkipsNext(lines, ts, i + 2, j);
      } else {
        TestedSkipsNext(lines, ts, i + 1, j);
      }
    }
  }

  /** Conversely, the only lines never examined are those right after an
      examined hit. */
  lemma {:induction false} UntestedFollowsHit(lines: seq<string>, ts: set<string>, i: nat, j: nat)
    requires i <= j < |lines| && j !in Tested(lines, ts, i)
    ensures i < j && j - 1 in Tested(lines, ts, i) && Hit(lines[j - 1], ts)
    decreases |lines| - i
  {
    if Hit(lines[i], ts) {
      if j != i + 1 {
        UntestedFollowsHit(lines, ts, i + 2, j);
      }
    } else {
      UntestedFollowsHit(lines, ts, i + 1, j);
    }
  }

  /** A run of lines none of which is removed comes through unchanged. */
  lemma {:induction false} KeptUntouched<T>(lines: seq<T>, removed: set<int>, i: nat, j: nat)
    requires i <= j <= |lines|
    requires forall k :: i <= k < j ==> k !in removed
    ensures KeptFrom(lines, removed, i) == lines[i..j] + KeptFrom(lines, removed, j)
    decreases j - i
  {
    if i < j {
      KeptUntouched(lines, removed, i + 1, j);
      calc {
        KeptFrom(lines, removed, i);
        { assert i !in removed; }
        [lines[i]] + KeptFrom(lines, removed, i + 1);
        [lines[i]] + (lines[i + 1..j] + KeptFrom(lines, removed, j));
        { assert [lines[i]] + lines[i + 1..j] == lines[i..j]; }
        lines[i..j] + KeptFrom(lines, removed, j);
      }
    }
  }

  /** The positions of the output lines: the indices not removed, in
      increasing order. */
  ghost function KeptIndices(n: nat, removed: set<int>, i: nat): (r: seq<nat>)
    ensures forall m :: 0 <= m < |r| ==> i <= r[m] < n && r[m] !in removed
    ensures forall k :: i <= k < n && k !in removed ==> k in r
    ensures forall a, b :: 0 <= a < b < |r| ==> r[a] < r[b]
    decreases n - i
  {
    if i >= n then []
    else
      var rest := KeptIndices(n, removed, i + 1);
      if i in removed then rest
      else
        assert forall m :: 0 <= m < |[i] + rest| ==> ([i] + rest)[m] == if m == 0 then i else rest[m - 1];
        [i] + rest
  }

  /** The output is the input with the removed indices taken out and
      nothing else changed: its `m`-th line is the input line at the `m`-th
      surviving index. */
  lemma {:induction false} KeptAt<T>(lines: seq<T>, removed: set<int>, i: nat)
    ensures |KeptFrom(lines, removed, i)| == |KeptIndices(|lines|, removed, i)|
    ensures forall m :: 0 <= m < |KeptFrom(lines, removed, i)| ==>
      KeptFrom(lines, removed, i)[m] == lines[KeptIndices(|lines|, removed, i)[m]]
    decreases |lines| - i
  {
    if i < |lines| {
      KeptAt(lines, removed, i + 1);
      var rest := KeptFrom(lines, removed, i + 1);
      var idx := KeptIndices(|lines|, removed, i + 1);
      if i in removed {
        assert KeptFrom(lines, removed, i) == [] + rest == rest;
        assert KeptIndices(|lines|, removed, i) == [] + idx == idx;
      } else {
        var r := KeptFrom(lines, removed, i);
        var x := KeptIndices(|lines|, removed, i);
        assert r == [lines[i]] + rest;
        assert x == [i] + idx;
        forall m | 0 <= m < |r|
          ensures r[m] == lines[x[m]]
        {
          if m > 0 {
            assert r[m] == rest[m - 1] && x[m] == idx[m - 1];
          }
        }
      }
    }
  }

  // ---------------------------------------------------------------
  // The intended effect on a playlist of tag/URI pairs
  // ---------------------------------------------------------------

  /** One media segment of a playlist: its `#EXTINF` tag line and its URI line. */
  datatype Segment<T> = Segment(tag: T, uri: T)

  function SegmentLines<T>(segs: seq<Segment<T>>): (r: seq<T>)
    ensures |r| == 2 * |segs|
  {
    if |segs| == 0 then [] else [segs[0].tag, segs[0].uri] + SegmentLines(segs[1..])
  }

  /** The segments whose URI is not an advertisement. */
  function Clean<T>(segs: seq<Segment<T>>, ad: T -> bool): seq<Segment<T>>
  {
    if |segs| == 0 then []
    else (if ad(segs[0].uri) then [] else [segs[0]]) + Clean(segs[1..], ad)
  }

  /** The line positions, counted from `base`, of the segments whose URI is
      an advertisement. */
  function AdPositions<T>(base: nat, segs: seq<Segment<T>>, ad: T -> bool): (r: set<int>)
    ensures forall k :: k in r ==> base <= k < base + 2 * |segs|
    decreases |segs|
  {
    if |segs| == 0 then {}
    else (if ad(segs[0].uri) then {base, base + 1} else {}) + AdPositions(base + 2, segs[1..], ad)
  }

  /** A line is an advertisement line when it names a dropped file. */
  function IsAd(ts: set<string>): string -> bool
  {
    line => Hit(line, ts)
  }

  /** `segs` are laid out in `lines` from position `base` on, tag then URI. */
  ghost predicate SegmentsAt<T>(lines: seq<T>, base: nat, segs: seq<Segment<T>>)
    decreases |segs|
  {
    if |segs| == 0 then base <= |lines|
    else
      base + 2 <= |lines| && lines[base] == segs[0].tag && lines[base + 1] == segs[0].uri
      && SegmentsAt(lines, base + 2, segs[1..])
  }

  /** A playlist built from a header, segments and a trailer lays its
      segments out right after the header. */
  lemma {:induction false} SegmentsAtConcat<T>(header: seq<T>, segs: seq<Segment<T>>, trailer: seq<T>)
    ensures SegmentsAt(header + SegmentLines(segs) + trailer, |header|, segs)
    decreases |segs|
  {
    if |segs| > 0 {
      var pair := [segs[0].tag, segs[0].uri];
      SegmentsAtConcat(header + pair, segs[1..], trailer);
      assert header + SegmentLines(segs) + trailer == (header + pair) + SegmentLines(segs[1..]) + trailer;
    }
  }

  lemma SegmentLinesCons<T>(s: Segment<T>, segs: seq<Segment<T>>)
    ensures SegmentLines([s] + segs) == [s.tag, s.uri] + SegmentLines(segs)
  {
    assert ([s] + segs)[1..] == segs;
  }

  lemma AdPositionsHead<T>(base: nat, segs: seq<Segment<T>>, ad: T -> bool)
    requires |segs| > 0
    ensures base in AdPositions(base, segs, ad) <==> ad(segs[0].uri)
    ensures base + 1 in AdPositions(base, segs, ad) <==> ad(segs[0].uri)
    ensures forall k :: base + 2 <= k ==> (k in AdPositions(base, segs, ad) <==> k in AdPositions(base + 2, segs[1..], ad))
  {
  }

  /** Lines without a hit do not change what the loop marks. */
  lemma {:induction false} MarkedSkipsClean(lines: seq<string>, ts: set<string>, i: nat, j: nat)
    requires i <= j
    requires forall k :: i <= k < j && k < |lines| ==> !Hit(lines[k], ts)
    ensures Marked(lines, ts, i) == Marked(lines, ts, j)
    decreases j - i
  {
    if i < j {
      MarkedSkipsClean(lines, ts, i + 1, j);
    }
  }

  /** Over a run of segments whose tags name no dropped file, followed only
      by lines that name none either, the loop marks exactly the tag and URI
      lines of the advertisement segments. */
  lemma {:induction false} MarkedSegments(lines: seq<string>, ts: set<string>, base: nat, segs: seq<Segment<string>>)
    requires SegmentsAt(lines, base, segs)
    requires forall k :: 0 <= k < |segs| ==> !Hit(segs[k].tag, ts)
    requires forall k :: base + 2 * |segs| <= k < |lines| ==> !Hit(lines[k], ts)
    ensures Marked(lines, ts, base) == AdPositions(base, segs, IsAd(ts))
    decreases |segs|
  {
    if |segs| == 0 {
      MarkedSkipsClean(lines, ts, base, |lines|);
    } else {
      var rest := segs[1..];
      assert forall k :: 0 <= k < |rest| ==> !Hit(rest[k].tag, ts) by {
        forall k | 0 <= k < |rest| ensures !Hit(rest[k].tag, ts) {
          assert rest[k] == segs[k + 1];
        }
      }
      MarkedSegments(lines, ts, base + 2, rest);
      assert !Hit(lines[base], ts) by { assert !Hit(segs[0].tag, ts); }
      assert IsAd(ts)(segs[0].uri) == Hit(lines[base + 1], ts);
      if Hit(lines[base + 1], ts) {
        if |rest| > 0 {
          assert !Hit(rest[0].tag, ts);
        }
        MarkedSkipsClean(lines, ts, base + 2, base + 3);
      }
    }
  }

  /** Two neighbouring lines removed together or kept together. */
  lemma KeptPair<T>(lines: seq<T>, removed: set<int>, base: nat)
    requires base + 2 <= |lines|
    requires base in removed <==> base + 1 in removed
    ensures KeptFrom(lines, removed, base)
      == (if base in removed then [] else [lines[base], lines[base + 1]]) + KeptFrom(lines, removed, base + 2)
  {
    assert KeptFrom(lines, removed, base)
      == (if base in removed then [] else [lines[base]]) + KeptFrom(lines, removed, base + 1);
  }

  /** Only membership at the examined positions matters. */
  lemma {:induction false} KeptFromAgree<T>(lines: seq<T>, r1: set<int>, r2: set<int>, i: nat)
    requires forall k :: i <= k < |lines| ==> (k in r1 <==> k in r2)
    ensures KeptFrom(lines, r1, i) == KeptFrom(lines, r2, i)
    decreases |lines| - i
  {
    if i < |lines| {
      KeptFromAgree(lines, r1, r2, i + 1);
    }
  }

  /** The lines a segment contributes to the rebuilt playlist. */
  function SegmentKept<T>(s: Segment<T>, ad: T -> bool): seq<T>
  {
    if ad(s.uri) then [] else [s.tag, s.uri]
  }

  /** The first segment's two lines go or stay together. */
  lemma KeptHead<T>(lines: seq<T>, ad: T -> bool, base: nat, segs: seq<Segment<T>>)
    requires |segs| > 0 && SegmentsAt(lines, base, segs)
    ensures base + 2 <= |lines|
    ensures KeptFrom(lines, AdPositions(base, segs, ad), base)
      == SegmentKept(segs[0], ad) + KeptFrom(lines, AdPositions(base + 2, segs[1..], ad), base + 2)
  {
    AdPositionsHead(base, segs, ad);
    KeptPair(lines, AdPositions(base, segs, ad), base);
    KeptFromAgree(lines, AdPositions(base, segs, ad), AdPositions(base + 2, segs[1..], ad), base + 2);
  }

  lemma CleanHead<T>(segs: seq<Segment<T>>, ad: T -> bool)
    requires |segs| > 0
    ensures SegmentLines(Clean(segs, ad)) == SegmentKept(segs[0], ad) + SegmentLines(Clean(segs[1..], ad))
  {
    var rest := Clean(segs[1..], ad);
    if ad(segs[0].uri) {
      assert Clean(segs, ad) == rest by {
        assert Clean(segs, ad) == [] + rest;
      }
      assert [] + SegmentLines(rest) == SegmentLines(rest);
    } else {
      assert Clean(segs, ad) == [segs[0]] + rest;
      SegmentLinesCons(segs[0], rest);
    }
  }

  /** Removing the advertisement positions from a run of segment lines
      leaves the lines of the other segments, followed by the rest. */
  lemma {:induction false} KeptSegments<T>(lines: seq<T>, ad: T -> bool, base: nat, segs: seq<Segment<T>>)
    requires SegmentsAt(lines, base, segs)
    ensures base + 2 * |segs| <= |lines|
    ensures KeptFrom(lines, AdPositions(base, segs, ad), base)
      == SegmentLines(Clean(segs, ad)) + lines[base + 2 * |segs|..]
    decreases |segs|
  {
    if |segs| == 0 {
      KeptUntouched(lines, AdPositions(base, segs, ad), base, |lines|);
      assert lines[base..|lines|] == lines[base..];
    } else {
      var rest := segs[1..];
      KeptSegments(lines, ad, base + 2, rest);
      KeptHead(lines, ad, base, segs);
      CleanHead(segs, ad);
      var pair := SegmentKept(segs[0], ad);
      var kept := SegmentLines(Clean(rest, ad));
      var tail := lines[base + 2 * |segs|..];
      assert base + 2 + 2 * |rest| == base + 2 * |segs|;
      calc {
        KeptFrom(lines, AdPositions(base, segs, ad), base);
        pair + KeptFrom(lines, AdPositions(base + 2, rest, ad), base + 2);
        pair + (kept + tail);
        (pair + kept) + tail;
      }
    }
  }

  /** Removing exactly the advertisement positions from a playlist keeps
      the header, the other segments and the trailer. */
  lemma KeptPlaylist<T>(header: seq<T>, segs: seq<Segment<T>>, trailer: seq<T>, ad: T -> bool)
    ensures KeptFrom(header + SegmentLines(segs) + trailer, AdPositions(|header|, segs, ad), 0)
      == header + SegmentLines(Clean(segs, ad)) + trailer
  {
    var lines := header + SegmentLines(segs) + trailer;
    var removed := AdPositions(|header|, segs, ad);
    var h := |header|;
    var e := h + 2 * |segs|;
    SegmentsAtConcat(header, segs, trailer);
    KeptUntouched(lines, removed, 0, h);
    KeptSegments(lines, ad, h, segs);
    calc {
      KeptFrom(lines, removed, 0);
      lines[0..h] + KeptFrom(lines, removed, h);
      { assert lines[0..h] == header; }
      header + (SegmentLines(Clean(segs, ad)) + lines[e..]);
      { assert lines[e..] == trailer; }
      header + SegmentLines(Clean(segs, ad)) + trailer;
    }
  }

  /** On such a playlist the removal loop marks exactly the advertisement
      positions. */
  lemma MarkedPlaylist(header: seq<string>, segs: seq<Segment<string>>, trailer: seq<string>, ts: set<string>)
    requires forall k :: 0 <= k < |header| ==> !Hit(header[k], ts)
    requires forall k :: 0 <= k < |segs| ==> !Hit(segs[k].tag, ts)
    requires forall k :: 0 <= k < |trailer| ==> !Hit(trailer[k], ts)
    ensures Marked(header + SegmentLines(segs) + trailer, ts, 0) == AdPositions(|header|, segs, IsAd(ts))
  {
    var lines := header + SegmentLines(segs) + trailer;
    var h := |header|;
    var e := h + 2 * |segs|;
    SegmentsAtConcat(header, segs, trailer);
    forall k | e <= k < |lines| ensures !Hit(lines[k], ts) {
      assert lines[k] == trailer[k - e];
    }
    forall k | 0 <= k < h && k < |lines| ensures !Hit(lines[k], ts) {
      assert lines[k] == header[k];
    }
    MarkedSkipsClean(lines, ts, 0, h);
    MarkedSegments(lines, ts, h, segs);
  }

  /** On a playlist made of header lines, tag/URI segment pairs and trailer
      lines, where only URI lines name segment files, the rebuilt playlist
      is the same playlist with exactly the segments naming a dropped file
      taken out, tag and URI together. */
  lemma RebuildDropsSegments(header: seq<string>, segs: seq<Segment<string>>, trailer: seq<string>, ts: set<string>)
    requires forall k :: 0 <= k < |header| ==> !Hit(header[k], ts)
    requires forall k :: 0 <= k < |segs| ==> !Hit(segs[k].tag, ts)
    requires forall k :: 0 <= k < |trailer| ==> !Hit(trailer[k], ts)
    ensures Rebuild(header + SegmentLines(segs) + trailer, ts) == header + SegmentLines(Clean(segs, IsAd(ts))) + trailer
  {
    MarkedPlaylist(header, segs, trailer, ts);
    KeptPlaylist(header, segs, trailer, IsAd(ts));
  }
}
