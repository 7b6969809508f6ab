/** `process_text.py`: the plain-text heuristics that join broken lines,
    cut over-long paragraphs at a likely sentence start and isolate titles. */
module Paragraphs {
  import opened Wrappers
  import opened Text

  /** `charLimit`: the longest line the translation engine is given. */
  const CharLimit: nat := 2000

  /** `is_connected(lineAbove, lineBelow)`: the lower line continues the
      sentence of the upper one. */
  predicate IsConnected(lineAbove: string, lineBelow: string)
  {
    |lineAbove| > 0 && |lineBelow| > 0 && lineAbove[|lineAbove| - 1] != '.' && IsLower(lineBelow[0])
  }

  /** Appending to a line keeps its first character, so whether it is
      connected to the line above does not change. */
  lemma ConnectedKeepsFirst(above: string, below: string, more: string)
    requires |below| > 0
    ensures IsConnected(above, below + more) == IsConnected(above, below)
  {
    assert (below + more)[0] == below[0];
  }

  /** Deleting one separator keeps a text thinned. */
  lemma ThinnedCut(a: string, b: string, c: char)
    ensures Thinned(a + b, a + [c] + b, c)
  {
    ThinnedRefl(a, c);
    ThinnedRefl(b, c);
    ThinnedDrop(c);
    ThinnedAppend(a, a, "", [c], c);
    assert a + "" == a;
    ThinnedAppend(a, a + [c], b, b, c);
  }

  /** Joining two neighbouring lines only deletes the newline between them. */
  lemma {:induction false} MergeThins(pre: seq<string>, x: string, y: string, post: seq<string>)
    ensures Thinned(Join(pre + [x + y] + post, "\n"), Join(pre + [x, y] + post, "\n"), '\n')
    decreases |pre|
  {
    if |pre| == 0 {
      assert pre + [x + y] + post == [x + y] + post;
      assert pre + [x, y] + post == [x, y] + post;
      ThinnedCut(x, y, '\n');
      if |post| == 0 {
        assert [x, y][1..] == [y];
      } else {
        assert ([x, y] + post)[1..] == [y] + post;
        assert ([y] + post)[1..] == post;
        assert ([x + y] + post)[1..] == post;
        var tail := "\n" + Join(post, "\n");
        ThinnedRefl(tail, '\n');
        ThinnedAppend(x + y, x + "\n" + y, tail, tail, '\n');
        assert Join([x + y] + post, "\n") == (x + y) + tail;
        assert Join([y] + post, "\n") == y + tail;
        assert Join([x, y] + post, "\n") == x + "\n" + (y + tail);
        assert x + "\n" + (y + tail) == (x + "\n" + y) + tail;
      }
    } else {
      MergeThins(pre[1..], x, y, post);
      assert (pre + [x + y] + post)[1..] == pre[1..] + [x + y] + post;
      assert (pre + [x, y] + post)[1..] == pre[1..] + [x, y] + post;
      var head := pre[0] + "\n";
      ThinnedRefl(head, '\n');
      assert Join(pre + [x + y] + post, "\n") == head + Join(pre[1..] + [x + y] + post, "\n");
      assert Join(pre + [x, y] + post, "\n") == head + Join(pre[1..] + [x, y] + post, "\n");
      ThinnedAppend(head, head, Join(pre[1..] + [x + y] + post, "\n"), Join(pre[1..] + [x, y] + post, "\n"), '\n');
    }
  }

  /** The lines `connect_paragraphs` makes of `cur` followed by `rest`: the
      next line is appended to the current one exactly when the two are
      connected; otherwise the current line is finished and the next one
      becomes current. */
  function ConnectFrom(cur: string, rest: seq<string>): (r: seq<string>)
    ensures |r| >= 1
    decreases |rest|
  {
    if |rest| == 0 then [cur]
    else if IsConnected(cur, rest[0]) then ConnectFrom(cur + rest[0], rest[1..])
    else [cur] + ConnectFrom(rest[0], rest[1..])
  }

  /** What `connect_paragraphs` returns for `text`. */
  function Connect(text: string): string
  {
    var lines := Split(text, '\n');
    Join(ConnectFrom(lines[0], lines[1..]), "\n")
  }

  /** Lines of which no two neighbours are connected are kept as they are. */
  lemma {:induction false} ConnectFromUnconnected(cur: string, rest: seq<string>)
    requires |rest| > 0 ==> !IsConnected(cur, rest[0])
    requires forall k :: 0 <= k < |rest| - 1 ==> !IsConnected(rest[k], rest[k + 1])
    ensures ConnectFrom(cur, rest) == [cur] + rest
    decreases |rest|
  {
    if |rest| > 0 {
      ConnectFromUnconnected(rest[0], rest[1..]);
      assert [rest[0]] + rest[1..] == rest;
    }
  }

  /** A text in which no line continues the one above it comes back
      unchanged: every newline between unconnected lines is kept. */
  lemma ConnectUnconnected(text: string)
    requires forall k :: 0 <= k < |Split(text, '\n')| - 1 ==>
      !IsConnected(Split(text, '\n')[k], Split(text, '\n')[k + 1])
    ensures Connect(text) == text
  {
    var lines := Split(text, '\n');
    ConnectFromUnconnected(lines[0], lines[1..]);
    assert [lines[0]] + lines[1..] == lines;
    JoinSplit(text, '\n');
  }

  /** A piece without newline in front of a text extends its first line. */
  lemma {:induction false} SplitPrefixLine(y: string, rest: string)
    requires '\n' !in y
    ensures Split(y + rest, '\n')[0] == y + Split(rest, '\n')[0]
    ensures Split(y + rest, '\n')[1..] == Split(rest, '\n')[1..]
    decreases |y|
  {
    if |y| > 0 {
      assert (y + rest)[1..] == y[1..] + rest;
      assert y[0] in y;
      assert forall ch :: ch in y[1..] ==> ch in y;
      SplitPrefixLine(y[1..], rest);
      assert [y[0]] + y[1..] == y;
    } else {
      assert y + rest == rest;
    }
  }

  /** A line that continues the one above is joined to it: when the first
      two lines are connected, the result is that of the text without the
      newline between them. */
  lemma ConnectJoinsFirst(x: string, y: string, rest: string)
    requires '\n' !in x && '\n' !in y && IsConnected(x, y)
    ensures Connect(x + "\n" + y + rest) == Connect(x + y + rest)
  {
    var t := x + "\n" + y + rest;
    var u := x + y + rest;
    SplitAppend(x, y + rest, '\n');
    SplitNoSeparator(x, '\n');
    assert t == x + ['\n'] + (y + rest);
    var ys := Split(y + rest, '\n');
    SplitPrefixLine(y, rest);
    SplitPrefixLine(x + y, rest);
    assert Split(t, '\n') == [x] + ys;
    assert (x + y) + rest == u;
    var tl := Split(t, '\n');
    assert tl[0] == x && tl[1..] == ys;
    assert ys[0] == y + ys[0][|y|..];
    assert Split(u, '\n')[0] == x + ys[0] && Split(u, '\n')[1..] == ys[1..];
    ConnectedKeepsFirst(x, y, ys[0][|y|..]);
  }

  /** Connecting only deletes newlines and never adds a line. */
  lemma {:induction false} ConnectFromThins(cur: string, rest: seq<string>)
    requires '\n' !in cur && forall k :: 0 <= k < |rest| ==> '\n' !in rest[k]
    ensures |ConnectFrom(cur, rest)| <= |rest| + 1
    ensures forall k :: 0 <= k < |ConnectFrom(cur, rest)| ==> '\n' !in ConnectFrom(cur, rest)[k]
    ensures Thinned(Join(ConnectFrom(cur, rest), "\n"), Join([cur] + rest, "\n"), '\n')
    decreases |rest|
  {
    if |rest| == 0 {
      ThinnedRefl(cur, '\n');
    } else if IsConnected(cur, rest[0]) {
      assert '\n' !in rest[0];
      ConnectFromThins(cur + rest[0], rest[1..]);
      MergeThins([], cur, rest[0], rest[1..]);
      assert [] + [cur + rest[0]] + rest[1..] == [cur + rest[0]] + rest[1..];
      assert [] + [cur, rest[0]] + rest[1..] == [cur] + rest;
      ThinnedTrans(Join(ConnectFrom(cur, rest), "\n"), Join([cur + rest[0]] + rest[1..], "\n"), Join([cur] + rest, "\n"), '\n');
    } else {
      var tail := ConnectFrom(rest[0], rest[1..]);
      ConnectFromThins(rest[0], rest[1..]);
      assert [rest[0]] + rest[1..] == rest;
      assert ([cur] + tail)[1..] == tail;
      assert ([cur] + rest)[1..] == rest;
      ThinnedRefl(cur + "\n", '\n');
      ThinnedAppend(cur + "\n", cur + "\n", Join(tail, "\n"), Join(rest, "\n"), '\n');
    }
  }

  /** The first line made starts with the current line, and is it when that
      line is empty. */
  lemma {:induction false} ConnectFromHead(cur: string, rest: seq<string>)
    ensures |ConnectFrom(cur, rest)[0]| >= |cur| && ConnectFrom(cur, rest)[0][..|cur|] == cur
    ensures |cur| == 0 ==> ConnectFrom(cur, rest)[0] == cur
    decreases |rest|
  {
    if |rest| > 0 && IsConnected(cur, rest[0]) {
      ConnectFromHead(cur + rest[0], rest[1..]);
      assert (cur + rest[0])[..|cur|] == cur;
    }
  }

  /** No two neighbouring lines made are connected. */
  lemma {:induction false} ConnectFromSeparated(cur: string, rest: seq<string>)
    ensures forall k :: 0 <= k < |ConnectFrom(cur, rest)| - 1 ==>
      !IsConnected(ConnectFrom(cur, rest)[k], ConnectFrom(cur, rest)[k + 1])
    decreases |rest|
  {
    if |rest| > 0 {
      if IsConnected(cur, rest[0]) {
        ConnectFromSeparated(cur + rest[0], rest[1..]);
      } else {
        var tail := ConnectFrom(rest[0], rest[1..]);
        ConnectFromSeparated(rest[0], rest[1..]);
        ConnectFromHead(rest[0], rest[1..]);
        if |rest[0]| > 0 {
          assert tail[0] == rest[0] + tail[0][|rest[0]|..];
          ConnectedKeepsFirst(cur, rest[0], tail[0][|rest[0]|..]);
        }
        assert ConnectFrom(cur, rest) == [cur] + tail;
      }
    }
  }

  /** What `connect_paragraphs` promises of its result: it only lacks some
      newlines of the input, has no more lines, and no two adjacent lines of
      it are connected. */
  lemma ConnectSpec(text: string)
    ensures Thinned(Connect(text), text, '\n')
    ensures |Split(Connect(text), '\n')| <= |Split(text, '\n')|
    ensures forall k :: 0 <= k < |Split(Connect(text), '\n')| - 1 ==>
      !IsConnected(Split(Connect(text), '\n')[k], Split(Connect(text), '\n')[k + 1])
  {
    var lines := Split(text, '\n');
    var made := ConnectFrom(lines[0], lines[1..]);
    ConnectFromThins(lines[0], lines[1..]);
    ConnectFromSeparated(lines[0], lines[1..]);
    assert [lines[0]] + lines[1..] == lines;
    JoinSplit(text, '\n');
    SplitJoin(made, '\n');
  }

  /** A merge at `i` leaves the lines the specification makes unchanged. */
  lemma ConnectMergeStep(ts: seq<string>, i: nat)
    requires i + 1 < |ts| && IsConnected(ts[i], ts[i + 1])
    ensures var merged := ts[..i] + [ts[i] + ts[i + 1]] + ts[i + 2..];
      merged[..i] + ConnectFrom(merged[i], merged[i + 1..]) == ts[..i] + ConnectFrom(ts[i], ts[i + 1..])
  {
    var merged := ts[..i] + [ts[i] + ts[i + 1]] + ts[i + 2..];
    assert merged[..i] == ts[..i];
    assert merged[i + 1..] == ts[i + 2..];
    assert ts[i + 1..][1..] == ts[i + 2..];
  }

  /** Moving past an unconnected pair leaves them unchanged too. */
  lemma ConnectKeepStep(ts: seq<string>, i: nat)
    requires i + 1 < |ts| && !IsConnected(ts[i], ts[i + 1])
    ensures ts[..i + 1] + ConnectFrom(ts[i + 1], ts[i + 2..]) == ts[..i] + ConnectFrom(ts[i], ts[i + 1..])
  {
    assert ts[i + 1..][1..] == ts[i + 2..];
    assert ts[..i + 1] == ts[..i] + [ts[i]];
  }

  /** `connect_paragraphs(text)`: a line is appended to the one above while
      the two are connected. The result is `Connect(text)`: it only lacks
      some newlines of the input, has no more lines, and no two adjacent
      lines of it are connected. */
  method ConnectParagraphs(text: string) returns (out: string)
    ensures out == Connect(text)
    ensures Thinned(out, text, '\n')
    ensures |Split(out, '\n')| <= |Split(text, '\n')|
    ensures forall k :: 0 <= k < |Split(out, '\n')| - 1 ==>
      !IsConnected(Split(out, '\n')[k], Split(out, '\n')[k + 1])
  {
    var textSplit := Split(text, '\n');
    ghost var lines := textSplit;
    var i := 0;
    while i < |textSplit| - 1
      invariant 0 <= i < |textSplit|
      invariant textSplit[..i] + ConnectFrom(textSplit[i], textSplit[i + 1..]) == ConnectFrom(lines[0], lines[1..])
      decreases |textSplit| - i
    {
      var lineAbove := textSplit[i];
      var lineBelow := textSplit[i + 1];
      if IsConnected(lineAbove, lineBelow) {
        ConnectMergeStep(textSplit, i);
        textSplit := textSplit[..i] + [lineAbove + lineBelow] + textSplit[i + 2..];
      } else {
        ConnectKeepStep(textSplit, i);
        i := i + 1;
      }
    }
    assert textSplit[i + 1..] == [];
    assert textSplit[..i] + [textSplit[i]] == textSplit;
    out := Join(textSplit, "\n");
    ConnectSpec(text);
  }

  // ---------------------------------------------------------------------
  // First words and the longest capitalised one.

  /** The first non-empty element of `words`, or `''`. */
  function FirstNonEmpty(words: seq<string>): string
  {
    if |words| == 0 then "" else if |words[0]| > 0 then words[0] else FirstNonEmpty(words[1..])
  }

  /** `get_first_word(line)`. */
  function GetFirstWord(line: string): string
  {
    FirstNonEmpty(Split(line, ' '))
  }

  /** The first piece of a split runs up to the first separator. */
  lemma {:induction false} SplitHead(s: string, c: char)
    ensures var h := Split(s, c)[0];
      |h| <= |s| && s[..|h|] == h && (|h| == |s| || s[|h|] == c)
    decreases |s|
  {
    if |s| > 0 && s[0] != c {
      SplitHead(s[1..], c);
    }
  }

  /** The number of spaces a line starts with. */
  function LeadingSpaces(s: string): (r: nat)
    ensures r <= |s|
    ensures forall j :: 0 <= j < r ==> s[j] == ' '
    ensures r < |s| ==> s[r] != ' '
  {
    if |s| > 0 && s[0] == ' ' then 1 + LeadingSpaces(s[1..]) else 0
  }

  /** The first word is the first maximal run of non-spaces: it starts
      after the leading spaces and is followed by a space or ends the line;
      it is empty exactly when the line holds only spaces. */
  lemma {:induction false} GetFirstWordSpec(line: string)
    ensures var w := GetFirstWord(line);
      var k := LeadingSpaces(line);
      (w == "" <==> k == |line|) &&
      k + |w| <= |line| && line[k..k + |w|] == w && ' ' !in w &&
      (k + |w| == |line| || line[k + |w|] == ' ')
    decreases |line|
  {
    var w := GetFirstWord(line);
    if |line| > 0 {
      var rest := Split(line[1..], ' ');
      if line[0] == ' ' {
        assert Split(line, ' ') == [""] + rest;
        assert GetFirstWord(line) == GetFirstWord(line[1..]);
        GetFirstWordSpec(line[1..]);
        var k := LeadingSpaces(line[1..]);
        assert line[k + 1..k + 1 + |w|] == line[1..][k..k + |w|];
      } else {
        var h := Split(line, ' ')[0];
        assert h == [line[0]] + rest[0];
        assert w == h;
        SplitHead(line, ' ');
      }
    }
  }

  /** `argmax(array)`: the index of the first largest element. */
  function Argmax(a: seq<int>): (r: nat)
    requires |a| > 0
    ensures r < |a|
    ensures forall j :: 0 <= j < |a| ==> a[j] <= a[r]
    ensures forall j :: 0 <= j < r ==> a[j] < a[r]
  {
    if |a| == 1 then 0
    else
      var r := Argmax(a[1..]);
      if a[0] >= a[1 + r] then 0 else r + 1
  }

  // ---------------------------------------------------------------------
  // Cutting over-long paragraphs.

  /** `firstLength`: the length of each sentence's first word when it starts
      with a capital letter, zero otherwise and for the first sentence. */
  function FirstLengths(sentences: seq<string>): (r: seq<int>)
    ensures |r| == |sentences|
  {
    seq(|sentences|, k requires 0 <= k < |sentences| =>
      var w := GetFirstWord(sentences[k]);
      if k > 0 && |w| > 0 && IsUpper(w[0]) then |w| else 0)
  }

  /** Why a paragraph cannot be cut: no sentence after the first starts with
      a capital letter, so the source cuts at sentence 0 and recurses on the
      same paragraph until Python's recursion limit is hit. */
  datatype SplitFailure = NoSentenceBreak

  /** Every line of `s` is at most `charLimit` long. */
  predicate AllLinesShort(s: string)
  {
    forall k :: 0 <= k < |Split(s, '\n')| ==> |Split(s, '\n')[k]| <= CharLimit
  }

  lemma {:induction false} JoinLength(ps: seq<string>, sep: string)
    requires |ps| > 0
    ensures |Join(ps, sep)| >= |ps[0]|
  {
  }

  /** The cut of an over-long paragraph at sentence `pos`: both halves are
      shorter than the paragraph, and put together they give it back. */
  lemma CutHalves(p: string, pos: nat)
    requires var lines := Split(p, '.'); 0 < pos < |lines| && FirstLengths(lines)[pos] > 0
    ensures var lines := Split(p, '.');
      var par1 := Join(lines[..pos], ".") + ".";
      var par2 := Join(lines[pos..], ".");
      par1 + par2 == p && 0 < |par1| < |p| && 0 < |par2| < |p|
  {
    var lines := Split(p, '.');
    JoinSplit(p, '.');
    assert lines == lines[..pos] + lines[pos..];
    JoinAppend(lines[..pos], lines[pos..], ".");
    GetFirstWordSpec(lines[pos]);
    JoinLength(lines[pos..], ".");
  }

  /** `split_too_long_paragraphs(text)`: each line of the text is cut
      separately. */
  function SplitTooLong(text: string): Result<string, SplitFailure>
    decreases |text|, 2
  {
    SplitPieceLength(text, '\n');
    match SplitEach(Split(text, '\n'), |text|)
    case Err(e) => Err(e)
    case Ok(ps) => Ok(Join(ps, "\n"))
  }

  function SplitEach(ps: seq<string>, bound: nat): Result<seq<string>, SplitFailure>
    requires forall k :: 0 <= k < |ps| ==> |ps[k]| <= bound
    decreases bound, 1, |ps|
  {
    if |ps| == 0 then Ok([])
    else
      match SplitParagraph(ps[0])
      case Err(e) => Err(e)
      case Ok(x) =>
        match SplitEach(ps[1..], bound)
        case Err(e) => Err(e)
        case Ok(rest) => Ok([x] + rest)
  }

  /** One line: kept when short, otherwise cut before the sentence whose
      capitalised first word is longest, both halves cut again. */
  function SplitParagraph(p: string): Result<string, SplitFailure>
    decreases |p|, 0
  {
    if |p| <= CharLimit then Ok(p)
    else
      var lines := Split(p, '.');
      var position := Argmax(FirstLengths(lines));
      if position == 0 then Err(NoSentenceBreak)
      else
        CutHalves(p, position);
        var par1 := Join(lines[..position], ".") + ".";
        var par2 := Join(lines[position..], ".");
        match SplitTooLong(par1)
        case Err(e) => Err(e)
        case Ok(r1) =>
          match SplitTooLong(par2)
          case Err(e) => Err(e)
          case Ok(r2) => Ok(r1 + "\n" + r2)
  }

  lemma AllLinesShortJoin(a: string, b: string)
    requires AllLinesShort(a) && AllLinesShort(b)
    ensures AllLinesShort(a + "\n" + b)
  {
    SplitAppend(a, b, '\n');
  }

  lemma ThinnedJoin(a: string, ra: string, b: string, rb: string)
    requires Thinned(a, ra, '\n') && Thinned(b, rb, '\n')
    ensures Thinned(a + "\n" + b, ra + "\n" + rb, '\n')
  {
    ThinnedRefl("\n", '\n');
    ThinnedAppend(a, ra, "\n", "\n", '\n');
    ThinnedAppend(a + "\n", ra + "\n", b, rb, '\n');
  }

  /** When the cut succeeds, no line of the result is longer than
      `charLimit`, and the result is the text with newlines inserted. */
  lemma {:induction false} SplitTooLongSpec(text: string)
    ensures SplitTooLong(text).Ok? ==>
      AllLinesShort(SplitTooLong(text).value) && Thinned(text, SplitTooLong(text).value, '\n')
    decreases |text|, 2
  {
    SplitPieceLength(text, '\n');
    var ps := Split(text, '\n');
    if SplitTooLong(text).Ok? {
      SplitEachSpec(ps, |text|);
      var rs := SplitEach(ps, |text|).value;
      JoinSplit(text, '\n');
      JoinedSpec(ps, rs);
    }
  }

  lemma {:induction false} JoinedSpec(ps: seq<string>, rs: seq<string>)
    requires |ps| == |rs| > 0
    requires forall k :: 0 <= k < |rs| ==> AllLinesShort(rs[k]) && Thinned(ps[k], rs[k], '\n')
    ensures AllLinesShort(Join(rs, "\n")) && Thinned(Join(ps, "\n"), Join(rs, "\n"), '\n')
  {
    if |ps| > 1 {
      JoinedSpec(ps[1..], rs[1..]);
      AllLinesShortJoin(rs[0], Join(rs[1..], "\n"));
      ThinnedJoin(ps[0], rs[0], Join(ps[1..], "\n"), Join(rs[1..], "\n"));
    }
  }

  lemma {:induction false} SplitEachSpec(ps: seq<string>, bound: nat)
    requires forall k :: 0 <= k < |ps| ==> |ps[k]| <= bound
    ensures SplitEach(ps, bound).Ok? ==>
      var rs := SplitEach(ps, bound).value;
      |rs| == |ps| && forall k :: 0 <= k < |rs| ==> AllLinesShort(rs[k]) && Thinned(ps[k], rs[k], '\n')
    decreases bound, 1, |ps|
  {
    if |ps| > 0 && SplitEach(ps, bound).Ok? {
      SplitParagraphSpec(ps[0]);
      SplitEachSpec(ps[1..], bound);
      var rs := SplitEach(ps, bound).value;
      forall k | 0 <= k < |rs| ensures AllLinesShort(rs[k]) && Thinned(ps[k], rs[k], '\n') {
        if k > 0 { assert ps[k] == ps[1..][k - 1]; }
      }
    }
  }

  lemma {:induction false} SplitParagraphSpec(p: string)
    ensures SplitParagraph(p).Ok? ==>
      AllLinesShort(SplitParagraph(p).value) && Thinned(p, SplitParagraph(p).value, '\n')
    decreases |p|, 0
  {
    if SplitParagraph(p).Ok? {
      if |p| <= CharLimit {
        ThinnedRefl(p, '\n');
        SplitPieceLength(p, '\n');
      } else {
        var lines := Split(p, '.');
        var position := Argmax(FirstLengths(lines));
        CutHalves(p, position);
        var par1 := Join(lines[..position], ".") + ".";
        var par2 := Join(lines[position..], ".");
        SplitTooLongSpec(par1);
        SplitTooLongSpec(par2);
        var r1, r2 := SplitTooLong(par1).value, SplitTooLong(par2).value;
        AllLinesShortJoin(r1, r2);
        ThinnedJoin(par1, r1, par2, r2);
        ThinnedDrop('\n');
        ThinnedRefl(r1, '\n');
        ThinnedRefl(r2, '\n');
        ThinnedAppend(r1, r1, "", "\n", '\n');
        assert r1 + "" == r1;
        ThinnedAppend(r1, r1 + "\n", r2, r2, '\n');
        ThinnedAppend(par1, r1, par2, r2, '\n');
        ThinnedTrans(p, r1 + r2, r1 + "\n" + r2, '\n');
      }
    }
  }

  /** A text whose lines are all short enough is returned unchanged. */
  lemma {:induction false} SplitTooLongShort(text: string)
    requires AllLinesShort(text)
    ensures SplitTooLong(text) == Ok(text)
  {
    SplitPieceLength(text, '\n');
    var ps := Split(text, '\n');
    SplitEachShort(ps, |text|);
    JoinSplit(text, '\n');
  }

  lemma {:induction false} SplitEachShort(ps: seq<string>, bound: nat)
    requires forall k :: 0 <= k < |ps| ==> |ps[k]| <= bound && |ps[k]| <= CharLimit
    ensures SplitEach(ps, bound) == Ok(ps)
    decreases |ps|
  {
    if |ps| > 0 {
      SplitEachShort(ps[1..], bound);
      assert [ps[0]] + ps[1..] == ps;
    }
  }

  /** The cut of an over-long line: before the first sentence (sentence 0
      excluded) whose first word is capitalised and longest; the source
      fails when there is none. */
  lemma SplitParagraphCut(p: string)
    requires |p| > CharLimit
    ensures SplitParagraph(p).Ok? ==> exists pos :: 0 < pos < |Split(p, '.')| && FirstLengths(Split(p, '.'))[pos] > 0
    ensures (forall k :: 0 <= k < |Split(p, '.')| ==> FirstLengths(Split(p, '.'))[k] == 0) ==>
      SplitParagraph(p) == Err(NoSentenceBreak)
  {
    var lines := Split(p, '.');
    var fl := FirstLengths(lines);
    var position := Argmax(fl);
    assert fl[0] == 0;
    if position != 0 {
      assert 0 < position < |lines| && fl[position] > 0;
    } else {
      assert SplitParagraph(p) == Err(NoSentenceBreak);
      assert SplitParagraph(p).Err?;
    }
    assert (forall k :: 0 <= k < |lines| ==> fl[k] == 0) ==> position == 0;
  }

  // ---------------------------------------------------------------------
  // Titles.

  /** `is_title(lineAbove, lineBelow)`. */
  predicate IsTitle(lineAbove: string, lineBelow: string)
    ensures IsTitle(lineAbove, lineBelow) ==> !IsConnected(lineAbove, lineBelow)
  {
    |lineAbove| > 0 && |lineBelow| > 0 && lineAbove[|lineAbove| - 1] != '.' &&
    !IsLower(lineAbove[0]) && IsUpper(lineBelow[0])
  }

  /** Line `k` after `split_titles`: wrapped in blank lines when it is the
      title of the next line. */
  function TitleWrapped(lines: seq<string>, k: nat): string
    requires k < |lines|
  {
    if k + 1 < |lines| && IsTitle(lines[k], lines[k + 1]) then "\n\n" + lines[k] + "\n\n" else lines[k]
  }

  /** `split_titles(text)`: every line that looks like the title of the
      next one is surrounded by blank lines. The line count is kept, a line
      is changed only by the wrapping, exactly when it is a title of the
      original next line, and the last line is never wrapped. */
  method SplitTitles(text: string) returns (out: string)
    ensures var orig := Split(text, '\n');
      out == Join(seq(|orig|, k requires 0 <= k < |orig| => TitleWrapped(orig, k)), "\n")
  {
    var textSplit := Split(text, '\n');
    ghost var orig := textSplit;
    var i := 0;
    while i < |textSplit| - 1
      invariant |textSplit| == |orig| && 0 <= i <= |orig|
      invariant forall k :: i <= k < |orig| ==> textSplit[k] == orig[k]
      invariant forall k :: 0 <= k < i ==> textSplit[k] == TitleWrapped(orig, k)
    {
      var lineAbove := textSplit[i];
      var lineBelow := textSplit[i + 1];
      if IsTitle(lineAbove, lineBelow) {
        textSplit := textSplit[i := "\n\n" + textSplit[i] + "\n\n"];
      }
      i := i + 1;
    }
    assert textSplit[|orig| - 1] == TitleWrapped(orig, |orig| - 1);
    assert textSplit == seq(|orig|, k requires 0 <= k < |orig| => TitleWrapped(orig, k));
    out := Join(textSplit, "\n");
  }
}
