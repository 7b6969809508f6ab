/**
 * The DNS latency checker: every address of the stored list is pinged, the
 * addresses answering in under 100 ms are sorted by delay and written to a
 * file named after the host, and when there is none the three fastest are
 * reported instead.
 *
 * The ping results are a parameter (`delays`, one per address in list order,
 * as the futures are collected in submission order); delays are real numbers.
 */
module CheckDns {
  import opened Text
  import GpuScheduler

  // ---------------------------------------------------------------------------
  // sanitize_folder_name

  /** Replaces every character of `<>:"/\|?*` with `_`. */
  function SanitizeFolderName(name: string): (r: string)
    ensures |r| == |name|
    ensures forall k :: 0 <= k < |r| ==> !GpuScheduler.Illegal(r[k])
    ensures forall k :: 0 <= k < |name| && !GpuScheduler.Illegal(name[k]) ==> r[k] == name[k]
    ensures forall k :: 0 <= k < |name| && GpuScheduler.Illegal(name[k]) ==> r[k] == '_'
  {
    GpuScheduler.ReplaceIllegal(name)
  }

  /** Sanitising a sanitised name changes nothing. */
  lemma SanitizeIdempotent(name: string)
    ensures SanitizeFolderName(SanitizeFolderName(name)) == SanitizeFolderName(name)
  {
    var once := SanitizeFolderName(name);
    var twice := SanitizeFolderName(once);
    assert forall k :: 0 <= k < |once| ==> twice[k] == once[k];
  }

  // ---------------------------------------------------------------------------
  // Line files

  /** `f.read().splitlines()` for text whose only line break is `\n`. */
  function SplitLines(s: string): (lines: seq<string>)
    ensures forall k :: 0 <= k < |lines| ==> '\n' !in lines[k]
  {
    if |s| == 0 then []
    else if s[|s| - 1] == '\n' then Split(s[..|s| - 1], '\n')
    else Split(s, '\n')
  }

  /** Writing every line followed by `\n`. */
  function Lines(lines: seq<string>): string
  {
    if |lines| == 0 then "" else lines[0] + "\n" + Lines(lines[1..])
  }

  lemma {:induction false} LinesJoin(lines: seq<string>)
    requires |lines| > 0
    ensures Lines(lines) == Join(lines, "\n") + "\n"
  {
    if |lines| > 1 {
      LinesJoin(lines[1..]);
    }
  }

  /** A file written one line per entry reads back as the same entries. */
  lemma LinesRoundTrip(lines: seq<string>)
    ensures (forall k :: 0 <= k < |lines| ==> '\n' !in lines[k]) ==> SplitLines(Lines(lines)) == lines
  {
    if |lines| > 0 && forall k :: 0 <= k < |lines| ==> '\n' !in lines[k] {
      LinesJoin(lines);
      var body := Join(lines, "\n");
      assert (body + "\n")[..|body + "\n"| - 1] == body;
      SplitJoin(lines, '\n');
    }
  }

  /** The stored address list as it is written back: the addresses one after
   *  the other, with no separator. */
  function RewriteIpListAsWritten(ips: seq<string>): string
  {
    Concat(ips)
  }

  lemma {:induction false} ConcatNoBreak(ips: seq<string>)
    requires forall k :: 0 <= k < |ips| ==> '\n' !in ips[k]
    ensures '\n' !in Concat(ips)
  {
    if |ips| > 0 {
      ConcatNoBreak(ips[1..]);
    }
  }

  /** Written back as above, any list of addresses reads back as one line. */
  lemma RewriteMergesAddresses(ips: seq<string>)
    requires forall k :: 0 <= k < |ips| ==> '\n' !in ips[k]
    requires |Concat(ips)| > 0
    ensures SplitLines(RewriteIpListAsWritten(ips)) == [Concat(ips)]
  {
    ConcatNoBreak(ips);
    SplitNoSeparator(Concat(ips), '\n');
  }

  /** Two addresses are read back as a single, merged one. */
  lemma RewriteMergesExample()
    ensures SplitLines(RewriteIpListAsWritten(["1.1.1.1", "8.8.8.8"])) == ["1.1.1.18.8.8.8"]
  {
    assert Concat(["1.1.1.1", "8.8.8.8"]) == "1.1.1.18.8.8.8";
    RewriteMergesAddresses(["1.1.1.1", "8.8.8.8"]);
  }

  /** The stored address list written back one address per line. */
  function RewriteIpList(ips: seq<string>): (file: string)
    ensures (forall k :: 0 <= k < |ips| ==> '\n' !in ips[k]) ==> SplitLines(file) == ips
  {
    LinesRoundTrip(ips);
    Lines(ips)
  }

  // ---------------------------------------------------------------------------
  // Delay selection

  datatype Entry = Entry(ip: string, delay: real)

  const Threshold: real := 100.0

  /** `zip(delays, ip_list)`: as many pairs as the shorter list has items. */
  function Zip(ips: seq<string>, delays: seq<real>): (r: seq<Entry>)
    ensures |r| == if |ips| < |delays| then |ips| else |delays|
    ensures forall k :: 0 <= k < |r| ==> r[k] == Entry(ips[k], delays[k])
  {
    if |ips| == 0 || |delays| == 0 then []
    else [Entry(ips[0], delays[0])] + Zip(ips[1..], delays[1..])
  }

  function KeptIfLow(e: Entry): seq<Entry>
  {
    if e.delay < Threshold then [e] else []
  }

  /** The entries under the threshold, in their order. */
  function LowDelay(entries: seq<Entry>): seq<Entry>
  {
    if |entries| == 0 then []
    else LowDelay(entries[..|entries| - 1]) + KeptIfLow(entries[|entries| - 1])
  }

  /** `LowDelay` keeps every entry under the threshold, as often as it
   *  occurs, and nothing else. */
  lemma {:induction false} LowDelayExact(entries: seq<Entry>)
    ensures forall e ::
      multiset(LowDelay(entries))[e] == (if e.delay < Threshold then multiset(entries)[e] else 0)
  {
    if |entries| > 0 {
      var n := |entries| - 1;
      LowDelayExact(entries[..n]);
      assert entries == entries[..n] + [entries[n]];
    }
  }

  predicate Ascending(s: seq<Entry>)
  {
    forall i, j :: 0 <= i < j < |s| ==> s[i].delay <= s[j].delay
  }

  /** Places `e` after every entry whose delay is not larger. */
  function InsertByDelay(sorted: seq<Entry>, e: Entry): (r: seq<Entry>)
    ensures |r| == |sorted| + 1
  {
    if |sorted| == 0 then [e]
    else if sorted[|sorted| - 1].delay <= e.delay then sorted + [e]
    else InsertByDelay(sorted[..|sorted| - 1], e) + [sorted[|sorted| - 1]]
  }

  /** `list.sort(key=lambda x: x['delay'])`: a stable sort by delay. */
  function SortByDelay(s: seq<Entry>): (r: seq<Entry>)
    ensures |r| == |s|
  {
    if |s| == 0 then [] else InsertByDelay(SortByDelay(s[..|s| - 1]), s[|s| - 1])
  }

  function KeptIfAt(e: Entry, d: real): seq<Entry>
  {
    if e.delay == d then [e] else []
  }

  /** The entries with delay exactly `d`, in their order. */
  function WithDelay(s: seq<Entry>, d: real): seq<Entry>
  {
    if |s| == 0 then [] else WithDelay(s[..|s| - 1], d) + KeptIfAt(s[|s| - 1], d)
  }

  lemma {:induction false} InsertPermutes(sorted: seq<Entry>, e: Entry)
    ensures multiset(InsertByDelay(sorted, e)) == multiset(sorted) + multiset{e}
    decreases |sorted|
  {
    if |sorted| > 0 && sorted[|sorted| - 1].delay > e.delay {
      var n := |sorted| - 1;
      InsertPermutes(sorted[..n], e);
      assert sorted == sorted[..n] + [sorted[n]];
    }
  }

  /** Every entry of a permutation of `front + [e]` is bounded when those are. */
  lemma BoundedMembers(r: seq<Entry>, front: seq<Entry>, e: Entry, bound: real)
    requires multiset(r) == multiset(front) + multiset{e}
    requires e.delay <= bound
    requires forall j :: 0 <= j < |front| ==> front[j].delay <= bound
    ensures forall i :: 0 <= i < |r| ==> r[i].delay <= bound
  {
    forall i | 0 <= i < |r|
      ensures r[i].delay <= bound
    {
      assert r[i] in multiset(r);
      if r[i] != e {
        assert r[i] in multiset(front);
        var j :| 0 <= j < |front| && front[j] == r[i];
      }
    }
  }

  lemma AscendingSnoc(r: seq<Entry>, x: Entry)
    requires Ascending(r)
    requires forall i :: 0 <= i < |r| ==> r[i].delay <= x.delay
    ensures Ascending(r + [x])
  {
  }

  lemma {:induction false} InsertAscending(sorted: seq<Entry>, e: Entry)
    requires Ascending(sorted)
    ensures Ascending(InsertByDelay(sorted, e))
    decreases |sorted|
  {
    if |sorted| > 0 && sorted[|sorted| - 1].delay > e.delay {
      var n := |sorted| - 1;
      var front := sorted[..n];
      InsertAscending(front, e);
      InsertPermutes(front, e);
      var r := InsertByDelay(front, e);
      BoundedMembers(r, front, e, sorted[n].delay);
      AscendingSnoc(r, sorted[n]);
    }
  }

  /** Inserting into an ascending list keeps, for each delay, the entries with
   *  that delay in order, with `e` after those already there. */
  lemma {:induction false} InsertStable(sorted: seq<Entry>, e: Entry, d: real)
    requires Ascending(sorted)
    ensures WithDelay(InsertByDelay(sorted, e), d) == WithDelay(sorted, d) + KeptIfAt(e, d)
    decreases |sorted|
  {
    if |sorted| == 0 {
      assert WithDelay([e], d) == WithDelay([], d) + KeptIfAt(e, d);
    } else if sorted[|sorted| - 1].delay <= e.delay {
      WithDelaySnoc(sorted, e, d);
    } else {
      var n := |sorted| - 1;
      var front := sorted[..n];
      var r := InsertByDelay(front, e);
      InsertStable(front, e, d);
      assert InsertByDelay(sorted, e) == r + [sorted[n]];
      WithDelaySnoc(r, sorted[n], d);
      assert WithDelay(sorted, d) == WithDelay(front, d) + KeptIfAt(sorted[n], d);
      KeptSwap(WithDelay(front, d), e, sorted[n], d);
    }
  }

  /** Two entries of different delays can be appended in either order. */
  lemma KeptSwap(a: seq<Entry>, e: Entry, x: Entry, d: real)
    requires e.delay < x.delay
    ensures (a + KeptIfAt(e, d)) + KeptIfAt(x, d) == (a + KeptIfAt(x, d)) + KeptIfAt(e, d)
  {
    if e.delay == d {
      assert KeptIfAt(x, d) == [];
    } else {
      assert KeptIfAt(e, d) == [];
    }
  }

  lemma WithDelaySnoc(s: seq<Entry>, e: Entry, d: real)
    ensures WithDelay(s + [e], d) == WithDelay(s, d) + KeptIfAt(e, d)
  {
    assert (s + [e])[..|s|] == s;
  }

  /** The sort yields a permutation of its input. */
  lemma {:induction false} SortPermutes(s: seq<Entry>)
    ensures multiset(SortByDelay(s)) == multiset(s)
  {
    if |s| > 0 {
      var n := |s| - 1;
      SortPermutes(s[..n]);
      InsertPermutes(SortByDelay(s[..n]), s[n]);
      assert s == s[..n] + [s[n]];
    }
  }

  /** The sort yields an ascending list. */
  lemma {:induction false} SortAscending(s: seq<Entry>)
    ensures Ascending(SortByDelay(s))
  {
    if |s| > 0 {
      var n := |s| - 1;
      SortAscending(s[..n]);
      InsertAscending(SortByDelay(s[..n]), s[n]);
    }
  }

  /** The sort is stable: entries of equal delay keep their relative order. */
  lemma {:induction false} SortStable(s: seq<Entry>, d: real)
    ensures WithDelay(SortByDelay(s), d) == WithDelay(s, d)
  {
    if |s| > 0 {
      var n := |s| - 1;
      SortStable(s[..n], d);
      SortAscending(s[..n]);
      InsertStable(SortByDelay(s[..n]), s[n], d);
    }
  }

  function Min(a: int, b: int): int { if a < b then a else b }

  function Ips(entries: seq<Entry>): (ips: seq<string>)
    ensures |ips| == |entries|
    ensures forall k :: 0 <= k < |entries| ==> ips[k] == entries[k].ip
  {
    if |entries| == 0 then [] else [entries[0].ip] + Ips(entries[1..])
  }

  /** What the run reports: the sorted low-delay entries and the file written
   *  for them, or the fastest entries when none is under the threshold. */
  datatype Report = LowDelayFound(good: seq<Entry>, file: string) | Fallback(fastest: seq<Entry>)

  function Outcome(ipInfo: seq<Entry>): Report
  {
    var good := LowDelay(ipInfo);
    if |good| > 0 then
      var sorted := SortByDelay(good);
      LowDelayFound(sorted, Lines(Ips(sorted)))
    else
      Fallback(SortByDelay(ipInfo)[..Min(|ipInfo|, 3)])
  }

  /**
   * The selection part of `main`: pairs the addresses with their delays,
   * keeps those under the threshold, and sorts the kept ones (or all of them,
   * for the fallback report).
   */
  method SelectIps(ipList: seq<string>, delays: seq<real>) returns (ipInfo: seq<Entry>, report: Report)
    ensures ipInfo == Zip(ipList, delays)
    ensures report == Outcome(ipInfo)
  {
    ipInfo := [];
    var goodIps: seq<Entry> := [];
    var i := 0;
    var n := Min(|ipList|, |delays|);
    while i < n
      invariant 0 <= i <= n
      invariant ipInfo == Zip(ipList, delays)[..i]
      invariant goodIps == LowDelay(ipInfo)
    {
      var e := Entry(ipList[i], delays[i]);
      assert (ipInfo + [e])[..i] == ipInfo;
      ipInfo := ipInfo + [e];
      if e.delay < Threshold {
        goodIps := goodIps + [e];
      }
      i := i + 1;
    }
    assert ipInfo == Zip(ipList, delays);
    if |goodIps| > 0 {
      goodIps := SortByDelay(goodIps);
      report := LowDelayFound(goodIps, Lines(Ips(goodIps)));
    } else {
      var sortedInfo := SortByDelay(ipInfo);
      report := Fallback(sortedInfo[..Min(|sortedInfo|, 3)]);
    }
  }

  /** The sorted low-delay entries are exactly the entries under the
   *  threshold, ascending, and in input order among equal delays. */
  lemma LowDelaySorted(ipInfo: seq<Entry>)
    ensures var good := SortByDelay(LowDelay(ipInfo));
      Ascending(good) &&
      (forall e :: multiset(good)[e] == if e.delay < Threshold then multiset(ipInfo)[e] else 0) &&
      (forall d :: WithDelay(good, d) == WithDelay(LowDelay(ipInfo), d))
  {
    var good := LowDelay(ipInfo);
    LowDelayExact(ipInfo);
    SortAscending(good);
    SortPermutes(good);
    forall d
      ensures WithDelay(SortByDelay(good), d) == WithDelay(good, d)
    {
      SortStable(good, d);
    }
  }

  lemma SubMembers(a: seq<Entry>, b: seq<Entry>)
    requires multiset(a) <= multiset(b)
    requires forall k :: 0 <= k < |b| ==> '\n' !in b[k].ip
    ensures forall k :: 0 <= k < |a| ==> '\n' !in a[k].ip
  {
    forall k | 0 <= k < |a|
      ensures '\n' !in a[k].ip
    {
      assert a[k] in multiset(a);
      assert a[k] in multiset(b);
      var j :| 0 <= j < |b| && b[j] == a[k];
    }
  }

  /** The file of sorted low-delay entries reads back as their addresses. */
  lemma LowDelayFileLines(ipInfo: seq<Entry>)
    requires forall k :: 0 <= k < |ipInfo| ==> '\n' !in ipInfo[k].ip
    ensures var ips := Ips(SortByDelay(LowDelay(ipInfo)));
      SplitLines(Lines(ips)) == ips
  {
    var good := LowDelay(ipInfo);
    var sorted := SortByDelay(good);
    LowDelayExact(ipInfo);
    SortPermutes(good);
    assert multiset(good) <= multiset(ipInfo);
    SubMembers(sorted, ipInfo);
    LinesRoundTrip(Ips(sorted));
  }

  /** The low-delay report holds exactly the entries under the threshold,
   *  ascending and in input order among equal delays, and its file reads
   *  back as their addresses, one per line. */
  lemma LowDelayReport(ipInfo: seq<Entry>)
    requires Outcome(ipInfo).LowDelayFound?
    requires forall k :: 0 <= k < |ipInfo| ==> '\n' !in ipInfo[k].ip
    ensures var r := Outcome(ipInfo);
      Ascending(r.good) &&
      (forall e :: multiset(r.good)[e] == if e.delay < Threshold then multiset(ipInfo)[e] else 0) &&
      (forall d :: WithDelay(r.good, d) == WithDelay(LowDelay(ipInfo), d)) &&
      SplitLines(r.file) == Ips(r.good)
  {
    LowDelaySorted(ipInfo);
    LowDelayFileLines(ipInfo);
  }

  /** With no entry under the threshold, every delay is at least the threshold. */
  lemma NoneLow(ipInfo: seq<Entry>)
    requires |LowDelay(ipInfo)| == 0
    ensures forall k :: 0 <= k < |ipInfo| ==> ipInfo[k].delay >= Threshold
  {
    LowDelayExact(ipInfo);
    forall k | 0 <= k < |ipInfo|
      ensures ipInfo[k].delay >= Threshold
    {
      assert ipInfo[k] in multiset(ipInfo);
    }
  }

  lemma PrefixMembers(t: seq<Entry>, s: seq<Entry>, m: nat)
    requires multiset(t) == multiset(s) && m <= |t|
    ensures forall i :: 0 <= i < m ==> t[i] in s
  {
    forall i | 0 <= i < m
      ensures t[i] in s
    {
      assert t[i] in multiset(t);
    }
  }

  /** In an ascending permutation of `s`, an entry of `s` faster than one of
   *  the first `m` is itself among the first `m`. */
  lemma PrefixFastest(t: seq<Entry>, s: seq<Entry>, m: nat)
    requires multiset(t) == multiset(s) && m <= |t| && Ascending(t)
    ensures forall i, k :: 0 <= i < m && 0 <= k < |s| && s[k].delay < t[i].delay ==> s[k] in t[..m]
  {
    forall i, k | 0 <= i < m && 0 <= k < |s| && s[k].delay < t[i].delay
      ensures s[k] in t[..m]
    {
      assert s[k] in multiset(t);
      var j :| 0 <= j < |t| && t[j] == s[k];
      assert t[..m][j] == s[k];
    }
  }

  /** Without a low-delay entry every delay is at least the threshold, and the
   *  fallback reports the `min(len, 3)` fastest entries in ascending order:
   *  any entry faster than a reported one is reported too. */
  lemma FallbackReport(ipInfo: seq<Entry>)
    requires Outcome(ipInfo).Fallback?
    ensures forall k :: 0 <= k < |ipInfo| ==> ipInfo[k].delay >= Threshold
    ensures var f := Outcome(ipInfo).fastest;
      |f| == Min(|ipInfo|, 3) && Ascending(f) &&
      (forall i :: 0 <= i < |f| ==> f[i] in ipInfo) &&
      (forall i, k :: 0 <= i < |f| && 0 <= k < |ipInfo| && ipInfo[k].delay < f[i].delay ==>
        ipInfo[k] in f)
  {
    NoneLow(ipInfo);
    var t := SortByDelay(ipInfo);
    var m := Min(|ipInfo|, 3);
    SortAscending(ipInfo);
    SortPermutes(ipInfo);
    PrefixMembers(t, ipInfo, m);
    PrefixFastest(t, ipInfo, m);
  }
}
