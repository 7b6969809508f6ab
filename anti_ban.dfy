/**
 * The CDN chooser: every server's answer to a HEAD request is turned into a
 * download size, the sizes are collected in a dictionary, and the server with
 * the largest size is picked.
 *
 * A Python dictionary is modelled as a sequence of (key, value) entries in
 * insertion order with distinct keys; `Assign` is `d[k] = v` and `Get` is
 * `d.get(k)`.  The HTTP round trip is a parameter: a `Response` carries the
 * header lines the server sent, `Unreachable` stands for every exception
 * `requests.head` can raise.
 */
module AntiBan {
  import opened Wrappers
  import opened Text
  import opened Placeholder

  // ---------------------------------------------------------------------------
  // Python dictionaries

  function Keys<K, V>(d: seq<(K, V)>): (ks: seq<K>)
    ensures |ks| == |d|
    ensures forall i :: 0 <= i < |d| ==> ks[i] == d[i].0
  {
    if |d| == 0 then [] else Keys(d[..|d| - 1]) + [d[|d| - 1].0]
  }

  predicate DistinctKeys<K(==), V>(d: seq<(K, V)>)
  {
    forall i, j :: 0 <= i < j < |d| ==> d[i].0 != d[j].0
  }

  /** `d.get(k)`: the value of the first entry with key `k`. */
  function Get<K(==), V>(d: seq<(K, V)>, k: K): (r: Option<V>)
    ensures r.None? <==> k !in Keys(d)
    ensures r.Some? ==> (k, r.value) in d
  {
    if |d| == 0 then None
    else if d[0].0 == k then Some(d[0].1)
    else Get(d[1..], k)
  }

  /** Where key `k` sits in `d`. */
  function IndexOf<K(==), V>(d: seq<(K, V)>, k: K): (i: nat)
    requires k in Keys(d)
    ensures i < |d| && d[i].0 == k
    ensures forall j :: 0 <= j < i ==> d[j].0 != k
  {
    if d[0].0 == k then 0
    else
      assert k in Keys(d[1..]) by {
        var j :| 0 <= j < |d| && Keys(d)[j] == k;
        assert Keys(d[1..])[j - 1] == k;
      }
      1 + IndexOf(d[1..], k)
  }

  /** `d[k] = v`: a new key goes to the end, an old key keeps its place. */
  function Assign<K(==), V>(d: seq<(K, V)>, k: K, v: V): (r: seq<(K, V)>)
  {
    if k in Keys(d) then d[IndexOf(d, k) := (k, v)] else d + [(k, v)]
  }

  lemma {:induction false} GetAt<K, V>(d: seq<(K, V)>, i: nat)
    requires DistinctKeys(d) && i < |d|
    ensures Get(d, d[i].0) == Some(d[i].1)
    decreases i
  {
    if i > 0 {
      GetAt(d[1..], i - 1);
    }
  }

  /** Overwriting entry `i` with its own key keeps the keys and every other
   *  key's value. */
  lemma {:induction false} ReplaceSpec<K, V>(d: seq<(K, V)>, i: nat, v: V)
    requires DistinctKeys(d) && i < |d|
    ensures Keys(d[i := (d[i].0, v)]) == Keys(d)
    ensures DistinctKeys(d[i := (d[i].0, v)])
    ensures forall k' :: k' != d[i].0 ==> Get(d[i := (d[i].0, v)], k') == Get(d, k')
  {
    var r := d[i := (d[i].0, v)];
    assert Keys(r) == Keys(d);
    forall k' | k' != d[i].0
      ensures Get(r, k') == Get(d, k')
    {
      if k' in Keys(d) {
        var j := IndexOf(d, k');
        GetAt(d, j);
        GetAt(r, j);
      }
    }
  }

  /** Appending an entry with a new key keeps every other key's value. */
  lemma {:induction false} AppendSpec<K, V>(d: seq<(K, V)>, k: K, v: V)
    requires DistinctKeys(d) && k !in Keys(d)
    ensures Keys(d + [(k, v)]) == Keys(d) + [k]
    ensures DistinctKeys(d + [(k, v)])
    ensures forall k' :: k' != k ==> Get(d + [(k, v)], k') == Get(d, k')
  {
    var r := d + [(k, v)];
    assert Keys(r) == Keys(d) + [k];
    forall k' | k' != k
      ensures Get(r, k') == Get(d, k')
    {
      if k' in Keys(d) {
        var j := IndexOf(d, k');
        GetAt(d, j);
        GetAt(r, j);
      }
    }
  }

  /** After `d[k] = v`, `k` maps to `v`, every other key to what it mapped to,
   *  and the keys stay distinct and in insertion order. */
  lemma AssignSpec<K, V>(d: seq<(K, V)>, k: K, v: V)
    requires DistinctKeys(d)
    ensures DistinctKeys(Assign(d, k, v))
    ensures Get(Assign(d, k, v), k) == Some(v)
    ensures forall k' :: k' != k ==> Get(Assign(d, k, v), k') == Get(d, k')
    ensures Keys(Assign(d, k, v)) == if k in Keys(d) then Keys(d) else Keys(d) + [k]
  {
    if k in Keys(d) {
      var i := IndexOf(d, k);
      ReplaceSpec(d, i, v);
      GetAt(d[i := (k, v)], i);
    } else {
      AppendSpec(d, k, v);
      GetAt(d + [(k, v)], |d|);
    }
  }

  // ---------------------------------------------------------------------------
  // Python's int() on header text

  /** `s.strip()` with ASCII whitespace. */
  function Strip(s: string): (t: string)
    ensures |t| <= |s|
    ensures |t| > 0 ==> !IsSpace(t[0]) && !IsSpace(t[|t| - 1])
    ensures forall k :: 0 <= k < |s| ==> IsSpace(s[k]) || s[k] in t
    decreases |s|
  {
    if |s| > 0 && IsSpace(s[0]) then Strip(s[1..])
    else if |s| > 0 && IsSpace(s[|s| - 1]) then Strip(s[..|s| - 1])
    else s
  }

  /** A character `int()` accepts inside the stripped text. */
  predicate IntChar(c: char) { IsDigit(c) || c == '_' || c == '+' || c == '-' }

  /** A digit string in which single underscores may separate digits. */
  predicate DigitGroups(s: string)
  {
    |s| > 0 && IsDigit(s[0]) && IsDigit(s[|s| - 1]) &&
    (forall k :: 0 <= k < |s| ==> IsDigit(s[k]) || s[k] == '_') &&
    (forall k :: 0 <= k < |s| - 1 ==> s[k] == '_' ==> s[k + 1] != '_')
  }

  function DropUnderscores(s: string): (t: string)
    ensures (forall k :: 0 <= k < |s| ==> IsDigit(s[k]) || s[k] == '_') ==> AllDigits(t)
  {
    if |s| == 0 then []
    else (if s[0] == '_' then [] else [s[0]]) + DropUnderscores(s[1..])
  }

  function Magnitude(s: string): (r: Option<int>)
    ensures r.Some? ==> r.value >= 0
  {
    if DigitGroups(s) then Some(ParseDecimal(DropUnderscores(s))) else None
  }

  /**
   * Python's `int(s)` on a string: surrounding whitespace is ignored, one
   * optional sign, then digits with single underscores allowed between them.
   * `None` is the `ValueError` the call raises on anything else.
   */
  function ParseInt(s: string): (r: Option<int>)
    ensures r.Some? ==> forall k :: 0 <= k < |s| ==> IsSpace(s[k]) || IntChar(s[k])
  {
    var t := Strip(s);
    if |t| > 0 && t[0] == '-' then
      (match Magnitude(t[1..]) case Some(n) => Some(-(n as int)) case None => None)
    else if |t| > 0 && t[0] == '+' then Magnitude(t[1..])
    else Magnitude(t)
  }

  lemma {:induction false} DropUnderscoresDigits(s: string)
    requires AllDigits(s)
    ensures DropUnderscores(s) == s
  {
    if |s| > 0 {
      DropUnderscoresDigits(s[1..]);
    }
  }

  lemma MagnitudeDecimal(n: nat)
    ensures Magnitude(DecimalString(n)) == Some(n)
  {
    DropUnderscoresDigits(DecimalString(n));
    ParseDecimalString(n);
  }

  lemma StripBare(s: string)
    requires |s| > 0 && !IsSpace(s[0]) && !IsSpace(s[|s| - 1])
    ensures Strip(s) == s
  {
  }

  /** `int(str(n)) == n`. */
  lemma ParseIntDecimal(n: nat)
    ensures ParseInt(DecimalString(n)) == Some(n)
  {
    MagnitudeDecimal(n);
    StripBare(DecimalString(n));
  }

  lemma ParseIntMinus(m: string, n: nat)
    requires |m| > 0 && m[0] == '-' && Strip(m) == m && Magnitude(m[1..]) == Some(n)
    ensures ParseInt(m) == Some(-(n as int))
  {
    var t := Strip(m);
    assert t[1..] == m[1..];
  }

  /** `int("-" + str(n)) == -n`. */
  lemma ParseIntNegative(n: nat)
    ensures ParseInt("-" + DecimalString(n)) == Some(-(n as int))
  {
    var d := DecimalString(n);
    var m := "-" + d;
    assert m[1..] == d && m[0] == '-' && m[|m| - 1] == d[|d| - 1];
    StripBare(m);
    MagnitudeDecimal(n);
    ParseIntMinus(m, n);
  }

  // ---------------------------------------------------------------------------
  // check_server_download_size

  /** What `requests.head` produced: the header lines the server sent, in
      order, or an exception. */
  datatype Response = Response(headers: seq<(string, string)>) | Unreachable

  /** Header names in lower case: the response's header dictionary compares
      names without regard to case. */
  const ContentRange := "content-range"
  const ContentLength := "content-length"

  function LowerChar(c: char): char
  {
    if 'A' <= c <= 'Z' then (c as int + 32) as char else c
  }

  /** `name.lower()` on ASCII names. */
  function Lower(s: string): (r: string)
    ensures |r| == |s| && forall i :: 0 <= i < |s| ==> r[i] == LowerChar(s[i])
  {
    if |s| == 0 then "" else [LowerChar(s[0])] + Lower(s[1..])
  }

  /** The values sent under a header whose lower-cased name is `name`, in
      the order sent. */
  function ValuesOf(hs: seq<(string, string)>, name: string): (vs: seq<string>)
    ensures |vs| <= |hs|
  {
    if |hs| == 0 then []
    else (if Lower(hs[0].0) == name then [hs[0].1] else []) + ValuesOf(hs[1..], name)
  }

  /** `response.headers.get(name)`: a header sent more than once reads as
      its values joined by `", "`; `None` when it was not sent at all. */
  function Header(hs: seq<(string, string)>, name: string): Option<string>
  {
    var vs := ValuesOf(hs, name);
    if |vs| == 0 then None else Some(Join(vs, ", "))
  }

  /** A header is present exactly when some line sent carries its name, in
      any mix of cases. */
  lemma HeaderPresent(hs: seq<(string, string)>, name: string)
    ensures Header(hs, name).Some? <==> exists i :: 0 <= i < |hs| && Lower(hs[i].0) == name
  {
    ValuesOfNone(hs, name);
  }

  /** A header sent once reads as the one value sent. */
  lemma {:induction false} ValuesOfSingle(hs: seq<(string, string)>, name: string, i: nat)
    requires i < |hs| && Lower(hs[i].0) == name
    requires forall j :: 0 <= j < |hs| && j != i ==> Lower(hs[j].0) != name
    ensures ValuesOf(hs, name) == [hs[i].1]
    ensures Header(hs, name) == Some(hs[i].1)
    decreases i
  {
    if i == 0 {
      forall j | 0 <= j < |hs[1..]| ensures Lower(hs[1..][j].0) != name {
        assert hs[1..][j] == hs[j + 1];
      }
      ValuesOfNone(hs[1..], name);
    } else {
      assert hs[1..][i - 1] == hs[i];
      forall j | 0 <= j < |hs[1..]| && j != i - 1 ensures Lower(hs[1..][j].0) != name {
        assert hs[1..][j] == hs[j + 1];
      }
      ValuesOfSingle(hs[1..], name, i - 1);
    }
  }

  /** No line carries `name`: no values. */
  lemma {:induction false} ValuesOfNone(hs: seq<(string, string)>, name: string)
    ensures (forall j :: 0 <= j < |hs| ==> Lower(hs[j].0) != name) <==> ValuesOf(hs, name) == []
    decreases |hs|
  {
    if |hs| > 0 {
      ValuesOfNone(hs[1..], name);
      if forall j :: 0 <= j < |hs[1..]| ==> Lower(hs[1..][j].0) != name {
        assert forall j :: 1 <= j < |hs| ==> hs[j] == hs[1..][j - 1];
      } else {
        var j :| 0 <= j < |hs[1..]| && Lower(hs[1..][j].0) == name;
        assert hs[1..][j] == hs[j + 1];
      }
    }
  }

  /** The last `/`-separated piece of a header value. */
  function LastPiece(v: string): (p: string)
    ensures '/' !in p
  {
    var parts := Split(v, '/');
    parts[|parts| - 1]
  }

  /** The size a server reports; `None` when the request or `int()` failed. */
  function DownloadSize(resp: Response): (size: Option<int>)
    ensures resp.Unreachable? ==> size.None?
    ensures resp.Response? ==>
      (Header(resp.headers, ContentRange).None? && Header(resp.headers, ContentLength).None? ==> size == Some(0))
  {
    match resp
    case Unreachable => None
    case Response(hs) =>
      match Header(hs, ContentRange)
      case Some(v) => ParseInt(LastPiece(v))
      case None =>
        match Header(hs, ContentLength)
        case Some(v) => ParseInt(v)
        case None => Some(0)
  }

  /** `check_server_download_size`: the server paired with its size. */
  function CheckServerDownloadSize(server: string, resp: Response): (r: (string, Option<int>))
    ensures r.0 == server
    ensures resp.Unreachable? ==> r.1.None?
  {
    (server, DownloadSize(resp))
  }

  lemma {:induction false} LastPieceAfterSlash(prefix: string, n: nat)
    ensures LastPiece(prefix + "/" + DecimalString(n)) == DecimalString(n)
  {
    var d := DecimalString(n);
    assert prefix + "/" + d == prefix + ['/'] + d;
    SplitAppend(prefix, d, '/');
    assert Split(d, '/') == [d] by { SplitNoSeparator(d, '/'); }
  }

  /** A `Content-Range` ending in `/total` gives `total`, whatever
   *  `Content-Length` says. */
  lemma ContentRangeWins(hs: seq<(string, string)>, prefix: string, total: nat)
    requires ValuesOf(hs, ContentRange) == [prefix + "/" + DecimalString(total)]
    ensures DownloadSize(Response(hs)) == Some(total)
  {
    LastPieceAfterSlash(prefix, total);
    ParseIntDecimal(total);
  }

  /** Without `Content-Range`, a decimal `Content-Length` is the size. */
  lemma ContentLengthUsed(hs: seq<(string, string)>, length: nat)
    requires ValuesOf(hs, ContentRange) == []
    requires ValuesOf(hs, ContentLength) == [DecimalString(length)]
    ensures DownloadSize(Response(hs)) == Some(length)
  {
    ParseIntDecimal(length);
  }

  /** The header name's case does not matter: `CONTENT-LENGTH: 42` is read
      like `Content-Length: 42`. */
  lemma ContentLengthAnyCase(name: string, length: nat)
    requires Lower(name) == ContentLength
    ensures DownloadSize(Response([(name, DecimalString(length))])) == Some(length)
  {
    var hs := [(name, DecimalString(length))];
    assert hs[1..] == [];
    assert ValuesOf(hs, ContentRange) == [];
    ContentLengthUsed(hs, length);
  }

  /** A `Content-Length` sent twice reads as `"a, b"`, which `int()` refuses. */
  lemma RepeatedLengthFails(name1: string, a: string, name2: string, b: string)
    requires Lower(name1) == ContentLength && Lower(name2) == ContentLength
    ensures DownloadSize(Response([(name1, a), (name2, b)])).None?
  {
    var hs := [(name1, a), (name2, b)];
    assert ContentLength[8] != ContentRange[8];
    assert hs[1..][1..] == [];
    assert ValuesOf(hs, ContentRange) == [];
    assert ValuesOf(hs, ContentLength) == [a, b];
    var v := Join([a, b], ", ");
    assert v == a + ", " + b by {
      assert Join([b], ", ") == b;
    }
    ParseIntRejects(v, |a|);
    assert Header(hs, ContentRange) == None;
    assert Header(hs, ContentLength) == Some(v);
  }

  /** `int()` refuses a string holding a character that is neither blank
      nor part of a number. */
  lemma ParseIntRejects(s: string, k: nat)
    requires k < |s| && !IsSpace(s[k]) && !IntChar(s[k])
    ensures ParseInt(s).None?
  {
  }

  /** An unknown total (a star after the last slash) makes `int()` raise: the size is `None`. */
  lemma UnknownTotalFails(hs: seq<(string, string)>, prefix: string)
    requires ValuesOf(hs, ContentRange) == [prefix + "/*"]
    ensures DownloadSize(Response(hs)).None?
  {
    assert prefix + "/*" == prefix + ['/'] + "*";
    SplitAppend(prefix, "*", '/');
    assert Split("*", '/') == ["*"] by { SplitNoSeparator("*", '/'); }
    assert LastPiece(prefix + "/*") == "*";
    assert Strip("*") == "*";
  }

  // ---------------------------------------------------------------------------
  // check_download_sizes

  /** The dictionary after storing `results` one after the other. */
  function Collected(results: seq<(string, Option<int>)>): seq<(string, Option<int>)>
  {
    if |results| == 0 then []
    else
      var last := results[|results| - 1];
      Assign(Collected(results[..|results| - 1]), last.0, last.1)
  }

  /**
   * `check_download_sizes`: `results` are the workers' (server, size) pairs in
   * the order they completed; each is stored with `download_sizes[server] = size`.
   */
  method CheckDownloadSizes(results: seq<(string, Option<int>)>) returns (sizes: seq<(string, Option<int>)>)
    ensures sizes == Collected(results)
    ensures DistinctKeys(sizes)
  {
    sizes := [];
    var i := 0;
    while i < |results|
      invariant 0 <= i <= |results|
      invariant sizes == Collected(results[..i])
    {
      assert results[..i + 1][..i] == results[..i];
      sizes := Assign(sizes, results[i].0, results[i].1);
      i := i + 1;
    }
    assert results[..i] == results;
    CollectedDistinct(results);
  }

  /** The size of the last completed check of `server`, if there was one. */
  function LastSize(results: seq<(string, Option<int>)>, server: string): (r: Option<Option<int>>)
    ensures r.None? <==> forall i :: 0 <= i < |results| ==> results[i].0 != server
  {
    if |results| == 0 then None
    else if results[|results| - 1].0 == server then Some(results[|results| - 1].1)
    else LastSize(results[..|results| - 1], server)
  }

  /** The collected dictionary has distinct keys. */
  lemma {:induction false} CollectedDistinct(results: seq<(string, Option<int>)>)
    ensures DistinctKeys(Collected(results))
  {
    if |results| > 0 {
      var n := |results| - 1;
      CollectedDistinct(results[..n]);
      AssignSpec(Collected(results[..n]), results[n].0, results[n].1);
    }
  }

  /** Each server maps to the size of its last completed check, and servers
   *  that were never checked are absent. */
  lemma {:induction false} CollectedLast(results: seq<(string, Option<int>)>, server: string)
    ensures Get(Collected(results), server) == LastSize(results, server)
  {
    if |results| > 0 {
      var n := |results| - 1;
      CollectedLast(results[..n], server);
      CollectedDistinct(results[..n]);
      AssignSpec(Collected(results[..n]), results[n].0, results[n].1);
    }
  }

  // ---------------------------------------------------------------------------
  // get_largest_download_ip

  /** The `max` key: a failed check counts as -1. */
  function Rank(size: Option<int>): int
  {
    if size.Some? then size.value else -1
  }

  /** The entry Python's `max` returns: the first entry of largest rank. */
  function LargestAt(sizes: seq<(string, Option<int>)>): (j: nat)
    requires |sizes| > 0
    ensures j < |sizes|
    ensures forall k :: 0 <= k < |sizes| ==> Rank(sizes[k].1) <= Rank(sizes[j].1)
    ensures forall k :: 0 <= k < j ==> Rank(sizes[k].1) < Rank(sizes[j].1)
  {
    if |sizes| == 1 then 0
    else
      var j := LargestAt(sizes[..|sizes| - 1]);
      if Rank(sizes[|sizes| - 1].1) > Rank(sizes[j].1) then |sizes| - 1 else j
  }

  /** `get_largest_download_ip`: `(None, None)` for an empty dictionary,
   *  otherwise the chosen server with its stored size. */
  function GetLargestDownloadIp(sizes: seq<(string, Option<int>)>): (r: (Option<string>, Option<int>))
    ensures r.0.None? <==> |sizes| == 0
    ensures r.0.None? ==> r.1.None?
  {
    if |sizes| == 0 then (None, None)
    else
      var j := LargestAt(sizes);
      (Some(sizes[j].0), sizes[j].1)
  }

  /**
   * The chosen server is a key of the dictionary, its size is the value
   * stored for it, no server ranks higher, and among servers of equal rank
   * it comes first.
   */
  lemma LargestChoice(sizes: seq<(string, Option<int>)>)
    requires DistinctKeys(sizes) && |sizes| > 0
    ensures var r := GetLargestDownloadIp(sizes);
      r.0.Some? && Get(sizes, r.0.value) == Some(r.1) &&
      (forall k :: 0 <= k < |sizes| ==> Rank(sizes[k].1) <= Rank(r.1)) &&
      (forall k :: 0 <= k < |sizes| && Rank(sizes[k].1) == Rank(r.1) ==>
        exists i :: 0 <= i <= k && sizes[i].0 == r.0.value)
  {
    var j := LargestAt(sizes);
    GetAt(sizes, j);
    forall k | 0 <= k < |sizes| && Rank(sizes[k].1) == Rank(sizes[j].1)
      ensures exists i :: 0 <= i <= k && sizes[i].0 == sizes[j].0
    {
      assert j <= k;
    }
  }

  /** A server that answered with a size of at least 0 is preferred to every
   *  server whose check failed. */
  lemma ReachableBeatsFailed(sizes: seq<(string, Option<int>)>, k: nat)
    requires k < |sizes| && sizes[k].1.Some? && sizes[k].1.value >= 0
    ensures var r := GetLargestDownloadIp(sizes);
      r.1.Some? && r.1.value >= sizes[k].1.value
  {
    var j := LargestAt(sizes);
    assert Rank(sizes[k].1) <= Rank(sizes[j].1);
  }
}
