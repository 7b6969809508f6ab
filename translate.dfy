/** The orchestration of `translate.py`: the text translator with its retry
    loop and counters, the packing of a paragraph into chunks the engine
    accepts, the cache-or-translate worker and the reassembly of the
    document. The translation engine is a script of replies, one per request. */
module Translate {
  import opened Wrappers
  import opened Text
  import Paragraphs
  import Cache
  import LatexDoc
  import Rewriters
  import Matchers
  import Extract
  import Placeholder
  import Restore
  import Nested

  // ---------------------------------------------------------------------
  // The engine and `TextTranslator`.

  /** What the engine does with one request: it translates, it refuses with
      a rate-limit error (the request is sent again), or it raises any other
      error. */
  datatype Reply = Translated(text: string) | RateLimited | Raised(error: string)

  /** Why a translation stops. `NoReply`: the replies ran out while the engine
      was still rate limiting, where the program would go on retrying.
      `LineTooLong`: the `assert` of `translate_paragraph_text`.
      `CacheUnwritable`: the paragraph file could not be opened.
      `NoDeclaration`: the `assert` of `insert_macro`.
      `Unsplittable`: a line too long for `split_too_long_paragraphs` to cut,
      where the program recurses without end. `Unrecoverable`: an exception
      of `recover_latex_objects`. */
  datatype Failure = EngineError(error: string) | NoReply | LineTooLong | CacheUnwritable | NoDeclaration
    | Unsplittable | Unrecoverable(reason: Restore.Failure) | NotComplete

  /** `re.match('.*[a-zA-Z].*', text, re.DOTALL)`: some ASCII letter occurs. */
  predicate HasLetter(s: string)
  {
    exists k :: 0 <= k < |s| && IsLetter(s[k])
  }

  /** The position of the first reply that is not a rate-limit error, or
      `|replies|` when there is none. */
  function FirstAnswer(replies: seq<Reply>): (k: nat)
    ensures k <= |replies|
    ensures forall j :: 0 <= j < k ==> replies[j].RateLimited?
    ensures k < |replies| ==> !replies[k].RateLimited?
  {
    if |replies| == 0 || !replies[0].RateLimited? then 0 else 1 + FirstAnswer(replies[1..])
  }

  /** The outcome of one `translate` call and the replies left for the next. */
  datatype Call = Call(result: Result<string, Failure>, rest: seq<Reply>)

  /** `TextTranslator.translate(text)` against the engine's replies. */
  function Answer(text: string, replies: seq<Reply>): Call
  {
    if !HasLetter(text) then Call(Ok(text), replies)
    else
      var k := FirstAnswer(replies);
      if k == |replies| then Call(Err(NoReply), [])
      else if replies[k].Translated? then Call(Ok(replies[k].text), replies[k + 1..])
      else Call(Err(EngineError(replies[k].error)), replies[k + 1..])
  }

  /** One attempt of the retry loop: a rate-limit error leaves the outcome to
      the next reply, a translation or another error settles it. */
  lemma AnswerFirst(text: string, replies: seq<Reply>)
    requires HasLetter(text) && |replies| > 0
    ensures replies[0].RateLimited? ==> Answer(text, replies[1..]) == Answer(text, replies)
    ensures replies[0].Translated? ==> Answer(text, replies) == Call(Ok(replies[0].text), replies[1..])
    ensures replies[0].Raised? ==> Answer(text, replies) == Call(Err(EngineError(replies[0].error)), replies[1..])
  {
    if replies[0].RateLimited? {
      var k := FirstAnswer(replies[1..]);
      assert FirstAnswer(replies) == k + 1;
      assert replies[1..][k..] == replies[k + 1..];
      if k < |replies[1..]| {
        assert replies[1..][k] == replies[k + 1];
        assert replies[1..][k + 1..] == replies[k + 2..];
      }
    }
  }

  /** How much a call adds to `numberOfCalls` and to `totChar`: only a call
      that reached the engine and came back with a translation counts. */
  function CallsOf(text: string, c: Call): nat
  {
    if HasLetter(text) && c.result.Ok? then 1 else 0
  }

  function CharsOf(text: string, c: Call): nat
  {
    if HasLetter(text) && c.result.Ok? then |text| else 0
  }

  class TextTranslator {
    /** The engine's replies to the requests still to come. */
    var replies: seq<Reply>
    var numberOfCalls: nat
    var totChar: nat

    constructor(replies: seq<Reply>)
      ensures this.replies == replies && numberOfCalls == 0 && totChar == 0
    {
      this.replies := replies;
      numberOfCalls := 0;
      totChar := 0;
    }

    /** `translate(text)`: text without a letter comes back as it is and
        nothing is sent; otherwise the request is repeated while the engine
        rate limits, and only a translation moves the counters. */
    method Translate(text: string) returns (r: Result<string, Failure>)
      modifies this
      ensures r == Answer(text, old(replies)).result && replies == Answer(text, old(replies)).rest
      ensures !HasLetter(text) ==> r == Ok(text) && replies == old(replies)
      ensures numberOfCalls == old(numberOfCalls) + CallsOf(text, Answer(text, old(replies)))
      ensures totChar == old(totChar) + CharsOf(text, Answer(text, old(replies)))
    {
      if !HasLetter(text) {
        return Ok(text);
      }
      while true
        invariant Answer(text, replies) == Answer(text, old(replies))
        invariant numberOfCalls == old(numberOfCalls) && totChar == old(totChar)
        decreases |replies|
      {
        if |replies| == 0 {
          return Err(NoReply);
        }
        var reply := replies[0];
        AnswerFirst(text, replies);
        replies := replies[1..];
        match reply
        case RateLimited =>
          // the source sleeps half a second before the next attempt
        case Raised(e) =>
          return Err(EngineError(e));
        case Translated(x) =>
          numberOfCalls := numberOfCalls + 1;
          totChar := totChar + |text|;
          return Ok(x);
      }
    }
  }

  // ---------------------------------------------------------------------
  // `translate_paragraph_text`: packing lines into parts.

  /** A line joins the current part while the two together stay under this. */
  const PackLimit: int := Paragraphs.CharLimit - 10

  /** The packing loop from the current `part` and the finished `parts` on. */
  function Pack(lines: seq<string>, part: string, parts: seq<string>): seq<string>
    decreases |lines|
  {
    if |lines| == 0 then parts + [part]
    else if |part| + |lines[0]| < PackLimit then Pack(lines[1..], part + "\n" + lines[0], parts)
    else Pack(lines[1..], lines[0], parts + [part])
  }

  /** Some line reaches the character limit. */
  predicate TooLong(lines: seq<string>)
  {
    exists k :: 0 <= k < |lines| && |lines[k]| >= Paragraphs.CharLimit
  }

  /** What the lines still to be packed add to the joined text. */
  function Tail(lines: seq<string>): string
  {
    if |lines| == 0 then "" else "\n" + Join(lines, "\n")
  }

  lemma JoinLast(ps: seq<string>, x: string, y: string)
    ensures Join(ps + [x + "\n" + y], "\n") == Join(ps + [x], "\n") + "\n" + y
  {
    if |ps| > 0 {
      JoinAppend(ps, [x + "\n" + y], "\n");
      JoinAppend(ps, [x], "\n");
    } else {
      assert ps + [x] == [x];
      assert ps + [x + "\n" + y] == [x + "\n" + y];
    }
  }

  /** Packing only regroups the lines: joining the parts with newlines gives
      the finished parts, the current part and the remaining lines joined. */
  lemma {:induction false} PackJoin(lines: seq<string>, part: string, parts: seq<string>)
    ensures Join(Pack(lines, part, parts), "\n") == Join(parts + [part], "\n") + Tail(lines)
    decreases |lines|
  {
    if |lines| > 0 {
      var line := lines[0];
      assert Join(lines, "\n") == line + Tail(lines[1..]);
      if |part| + |line| < PackLimit {
        PackJoin(lines[1..], part + "\n" + line, parts);
        JoinLast(parts, part, line);
      } else {
        PackJoin(lines[1..], line, parts + [part]);
        JoinAppend(parts + [part], [line], "\n");
      }
    }
  }

  /** When no line reaches the limit, no part does. */
  lemma {:induction false} PackBounded(lines: seq<string>, part: string, parts: seq<string>)
    requires !TooLong(lines) && |part| < Paragraphs.CharLimit
    requires forall k :: 0 <= k < |parts| ==> |parts[k]| < Paragraphs.CharLimit
    ensures forall k :: 0 <= k < |Pack(lines, part, parts)| ==> |Pack(lines, part, parts)[k]| < Paragraphs.CharLimit
    decreases |lines|
  {
    if |lines| > 0 {
      assert |lines[0]| < Paragraphs.CharLimit;
      assert !TooLong(lines[1..]) by {
        forall k | 0 <= k < |lines[1..]| ensures |lines[1..][k]| < Paragraphs.CharLimit {
          assert lines[1..][k] == lines[k + 1];
        }
      }
      if |part| + |lines[0]| < PackLimit {
        PackBounded(lines[1..], part + "\n" + lines[0], parts);
      } else {
        PackBounded(lines[1..], lines[0], parts + [part]);
      }
    }
  }

  /** The packing loop of `translate_paragraph_text`: it fails exactly when a
      line reaches the limit; otherwise every part is under the limit and the
      parts joined by newlines are the text after one newline. */
  method PackLines(text: string) returns (r: Result<seq<string>, Failure>)
    ensures r.Err? <==> TooLong(Split(text, '\n'))
    ensures r.Err? ==> r.error == LineTooLong
    ensures r.Ok? ==> r.value == Pack(Split(text, '\n'), "", [])
    ensures r.Ok? ==> Join(r.value, "\n") == "\n" + text
    ensures r.Ok? ==> forall k :: 0 <= k < |r.value| ==> |r.value[k]| < Paragraphs.CharLimit
  {
    var lines := Split(text, '\n');
    var parts: seq<string> := [];
    var part := "";
    var i := 0;
    while i < |lines|
      invariant 0 <= i <= |lines|
      invariant forall k :: 0 <= k < i ==> |lines[k]| < Paragraphs.CharLimit
      invariant Pack(lines[i..], part, parts) == Pack(lines, "", [])
    {
      var line := lines[i];
      assert lines[i..][0] == line && lines[i..][1..] == lines[i + 1..];
      if |line| >= Paragraphs.CharLimit {
        return Err(LineTooLong);
      }
      if |part| + |line| < PackLimit {
        part := part + "\n" + line;
      } else {
        parts := parts + [part];
        part := line;
      }
      i := i + 1;
    }
    parts := parts + [part];
    assert lines[i..] == [];
    PackJoin(lines, "", []);
    JoinSplit(text, '\n');
    PackBounded(lines, "", []);
    return Ok(parts);
  }

  // ---------------------------------------------------------------------
  // Translating the parts.

  /** The outcome of translating parts one after the other: the translations
      or the first failure, the replies left, and what the counters gained. */
  datatype Run = Run(result: Result<seq<string>, Failure>, rest: seq<Reply>, calls: nat, chars: nat)

  /** A run after some parts were already translated into `done`. */
  function Prepend(done: seq<string>, calls: nat, chars: nat, r: Run): Run
  {
    Run(if r.result.Ok? then Ok(done + r.result.value) else r.result, r.rest, calls + r.calls, chars + r.chars)
  }

  /** `[self.translator.translate(part) for part in parts]`, stopping at the
      first call that raises. */
  function TranslateAll(parts: seq<string>, replies: seq<Reply>): Run
    decreases |parts|
  {
    if |parts| == 0 then Run(Ok([]), replies, 0, 0)
    else
      var c := Answer(parts[0], replies);
      if c.result.Err? then Run(Err(c.result.error), c.rest, 0, 0)
      else Prepend([c.result.value], CallsOf(parts[0], c), CharsOf(parts[0], c), TranslateAll(parts[1..], c.rest))
  }

  /** The translations come one per part, in order, and a part without a
      letter comes back unchanged. */
  lemma {:induction false} TranslateAllParts(parts: seq<string>, replies: seq<Reply>)
    ensures var r := TranslateAll(parts, replies).result;
      r.Ok? ==> |r.value| == |parts| && forall k :: 0 <= k < |parts| && !HasLetter(parts[k]) ==> r.value[k] == parts[k]
    decreases |parts|
  {
    if |parts| > 0 {
      var c := Answer(parts[0], replies);
      if c.result.Ok? {
        TranslateAllParts(parts[1..], c.rest);
        var r := TranslateAll(parts, replies).result;
        var tail := TranslateAll(parts[1..], c.rest).result;
        if r.Ok? {
          assert r.value == [c.result.value] + tail.value;
          forall k | 0 <= k < |parts| && !HasLetter(parts[k]) ensures r.value[k] == parts[k] {
            if k > 0 {
              assert parts[1..][k - 1] == parts[k];
            }
          }
        }
      }
    }
  }

  /** A translated part moves from the run still to come to the finished ones. */
  lemma PrependStep(parts: seq<string>, i: nat, done: seq<string>, calls: nat, chars: nat, replies: seq<Reply>, c: Call)
    requires i < |parts| && c == Answer(parts[i], replies) && c.result.Ok?
    ensures Prepend(done, calls, chars, TranslateAll(parts[i..], replies)) ==
      Prepend(done + [c.result.value], calls + CallsOf(parts[i], c), chars + CharsOf(parts[i], c), TranslateAll(parts[i + 1..], c.rest))
  {
    assert parts[i..][0] == parts[i] && parts[i..][1..] == parts[i + 1..];
    var tail := TranslateAll(parts[i + 1..], c.rest);
    if tail.result.Ok? {
      assert done + ([c.result.value] + tail.result.value) == (done + [c.result.value]) + tail.result.value;
    }
  }

  /** A part whose translation fails ends the run with that failure. */
  lemma PrependStop(parts: seq<string>, i: nat, done: seq<string>, calls: nat, chars: nat, replies: seq<Reply>, c: Call)
    requires i < |parts| && c == Answer(parts[i], replies) && c.result.Err?
    ensures Prepend(done, calls, chars, TranslateAll(parts[i..], replies)) == Run(Err(c.result.error), c.rest, calls, chars)
  {
    assert parts[i..][0] == parts[i];
  }

  /** Parts without a letter never reach the engine: they come back as they
      are, and neither the replies nor the counters move. */
  lemma {:induction false} TranslateAllNoLetter(parts: seq<string>, replies: seq<Reply>)
    requires forall k :: 0 <= k < |parts| ==> !HasLetter(parts[k])
    ensures TranslateAll(parts, replies) == Run(Ok(parts), replies, 0, 0)
    decreases |parts|
  {
    if |parts| > 0 {
      assert !HasLetter(parts[0]);
      assert forall k :: 0 <= k < |parts[1..]| ==> parts[1..][k] == parts[k + 1];
      TranslateAllNoLetter(parts[1..], replies);
      assert [parts[0]] + parts[1..] == parts;
    }
  }

  /** A piece of a joined text has no letter when the joined text has none. */
  lemma NoLetterPieces(ps: seq<string>, sep: string)
    requires !HasLetter(Join(ps, sep))
    ensures forall k :: 0 <= k < |ps| ==> !HasLetter(ps[k])
  {
    forall k | 0 <= k < |ps| ensures !HasLetter(ps[k]) {
      JoinOffsets(ps, sep, k);
      var o := Offset(ps, |sep|, k);
      forall j | 0 <= j < |ps[k]| ensures !IsLetter(ps[k][j]) {
        assert ps[k][j] == Join(ps, sep)[o..o + |ps[k]|][j] == Join(ps, sep)[o + j];
      }
    }
  }

  /** `re.sub('  +', ' ', s)` where the character before `s` is a space
      exactly when `afterSpace` holds: a space right after a space goes. */
  function Squeeze(s: string, afterSpace: bool): string
    decreases |s|
  {
    if |s| == 0 then ""
    else if s[0] == ' ' && afterSpace then Squeeze(s[1..], true)
    else [s[0]] + Squeeze(s[1..], s[0] == ' ')
  }

  /** `re.sub('  +', ' ', s)`. */
  function CollapseSpaces(s: string): string
  {
    Squeeze(s, false)
  }

  /** No two spaces in a row (and none at the start when `afterSpace`). */
  predicate Single(s: string, afterSpace: bool)
  {
    (|s| > 0 && afterSpace ==> s[0] != ' ') &&
    forall k :: 0 < k < |s| && s[k] == ' ' ==> s[k - 1] != ' '
  }

  /** Collapsing only deletes spaces, and leaves no two spaces side by side;
      with `SqueezeRuns` (one space per run) this pins the result down. */
  lemma {:induction false} SqueezeSpec(s: string, afterSpace: bool)
    ensures Thinned(Squeeze(s, afterSpace), s, ' ')
    ensures Single(Squeeze(s, afterSpace), afterSpace)
    ensures |s| > 0 && |Squeeze(s, afterSpace)| > 0 ==>
      (Squeeze(s, afterSpace)[|Squeeze(s, afterSpace)| - 1] == ' ' <==> s[|s| - 1] == ' ')
    ensures |s| > 0 && |Squeeze(s, afterSpace)| == 0 ==> s[|s| - 1] == ' '
    decreases |s|
  {
    if |s| > 0 {
      SqueezeSpec(s[1..], s[0] == ' ');
      var rest := Squeeze(s[1..], s[0] == ' ');
      if |s| > 1 {
        assert s[1..][|s| - 2] == s[|s| - 1];
      }
      if !(s[0] == ' ' && afterSpace) {
        var r := [s[0]] + rest;
        assert Thinned(r, s, ' ') by {
          assert r[0] == s[0] && r[1..] == rest;
        }
        forall k | 0 < k < |r| && r[k] == ' ' ensures r[k - 1] != ' ' {
          if k > 1 {
            assert r[k] == rest[k - 1] && r[k - 1] == rest[k - 2];
          } else {
            assert r[k] == rest[0];
          }
        }
        if |rest| > 0 {
          assert r[|r| - 1] == rest[|rest| - 1];
        }
      }
    }
  }

  /** Collapsing a collapsed text changes nothing. */
  lemma {:induction false} SqueezeSingle(s: string, afterSpace: bool)
    requires Single(s, afterSpace)
    ensures Squeeze(s, afterSpace) == s
    decreases |s|
  {
    if |s| > 0 {
      assert Single(s[1..], s[0] == ' ') by {
        forall k | 0 < k < |s[1..]| && s[1..][k] == ' ' ensures s[1..][k - 1] != ' ' {
          assert s[k + 1] == ' ';
        }
        if |s| > 1 && s[1] == ' ' {
          assert s[1] == ' ' ==> s[0] != ' ';
        }
      }
      SqueezeSingle(s[1..], s[0] == ' ');
      assert [s[0]] + s[1..] == s;
    }
  }

  /** The number of spaces in `s`. */
  function SpaceCount(s: string): nat
  {
    if |s| == 0 then 0 else (if s[0] == ' ' then 1 else 0) + SpaceCount(s[1..])
  }

  /** The number of maximal runs of spaces in `s`, a run that starts `s`
      not counted when the character before `s` is a space. */
  function SpaceRuns(s: string, afterSpace: bool): nat
  {
    if |s| == 0 then 0
    else (if s[0] == ' ' && !afterSpace then 1 else 0) + SpaceRuns(s[1..], s[0] == ' ')
  }

  /** Each run of spaces leaves exactly one space behind. */
  lemma {:induction false} SqueezeRuns(s: string, afterSpace: bool)
    ensures SpaceCount(Squeeze(s, afterSpace)) == SpaceRuns(s, afterSpace)
    decreases |s|
  {
    if |s| > 0 {
      SqueezeRuns(s[1..], s[0] == ' ');
      if !(s[0] == ' ' && afterSpace) {
        var r := [s[0]] + Squeeze(s[1..], s[0] == ' ');
        assert r[1..] == Squeeze(s[1..], s[0] == ' ');
      }
    }
  }

  /** `re.sub('  +', ' ', s)` deletes only spaces, keeps one space of each
      run of spaces and no more, and collapsing twice changes nothing. */
  lemma CollapseSpacesSpec(s: string)
    ensures Thinned(CollapseSpaces(s), s, ' ')
    ensures forall k :: 0 < k < |CollapseSpaces(s)| && CollapseSpaces(s)[k] == ' ' ==> CollapseSpaces(s)[k - 1] != ' '
    ensures CollapseSpaces(CollapseSpaces(s)) == CollapseSpaces(s)
    ensures SpaceCount(CollapseSpaces(s)) == SpaceRuns(s, false)
  {
    SqueezeSpec(s, false);
    SqueezeRuns(s, false);
    SqueezeSingle(CollapseSpaces(s), false);
  }

  /** The zero-width space U+200B. */
  const ZeroWidthSpace: char := '\U{200B}'

  /** `text.replace("\u200b", "")`. */
  function DropZeroWidth(s: string): string
  {
    ReplaceAll(s, [ZeroWidthSpace], "")
  }

  /** Removing a one-character pattern deletes exactly its occurrences. */
  lemma {:induction false} ReplaceCharSpec(s: string, c: char)
    ensures Thinned(ReplaceAll(s, [c], ""), s, c)
    ensures c !in ReplaceAll(s, [c], "")
    decreases |s|
  {
    if |s| > 0 {
      ReplaceCharSpec(s[1..], c);
      var rest := ReplaceAll(s[1..], [c], "");
      if s[..1] == [c] {
        assert s[0] == c;
        assert ReplaceAll(s, [c], "") == rest;
      } else {
        assert s[0] != c;
        var r := [s[0]] + rest;
        assert ReplaceAll(s, [c], "") == r;
        assert r[0] == s[0] && r[1..] == rest;
      }
    } else {
      ThinnedRefl(s, c);
    }
  }

  lemma DropZeroWidthSpec(s: string)
    ensures Thinned(DropZeroWidth(s), s, ZeroWidthSpace)
    ensures ZeroWidthSpace !in DropZeroWidth(s)
  {
    ReplaceCharSpec(s, ZeroWidthSpace);
  }

  // ---------------------------------------------------------------------
  // The worker and the paragraph map.

  /** What the workers produce one after the other (`executor.map` hands the
      results back in input order): the translations or the first failure,
      the document directory's paragraph files afterwards, and how many
      workers finished. */
  datatype Work = Work(result: Result<seq<string>, Failure>, cache: map<string, string>, done: nat)

  /** The work still to come after `count` workers already gave `out`. */
  function After(out: seq<string>, count: nat, w: Work): Work
  {
    Work(if w.result.Ok? then Ok(out + w.result.value) else w.result, w.cache, count + w.done)
  }

  /** `worker` over `ps` in order, with `translate` standing for
      `translate_paragraph_latex` and `hash` for `deterministic_hash`. With the
      cache on, a paragraph whose fingerprint has a file is read from it; any
      other is translated and its file written. */
  function WorkAll(ps: seq<string>, translate: string -> Result<string, Failure>, hash: string -> string,
                   useCache: bool, cache: map<string, string>): Work
    decreases |ps|
  {
    if |ps| == 0 then Work(Ok([]), cache, 0)
    else
      var key := hash(ps[0]);
      if useCache && key in cache then After([cache[key]], 1, WorkAll(ps[1..], translate, hash, useCache, cache))
      else match translate(ps[0])
        case Err(e) => Work(Err(e), cache, 0)
        case Ok(x) => After([x], 1, WorkAll(ps[1..], translate, hash, useCache, if useCache then cache[key := x] else cache))
  }

  /** Paragraph files are only ever added: an existing file keeps its text,
      and without the cache nothing is written. */
  lemma {:induction false} WorkAllKeeps(ps: seq<string>, translate: string -> Result<string, Failure>, hash: string -> string,
                                         useCache: bool, cache: map<string, string>)
    ensures var w := WorkAll(ps, translate, hash, useCache, cache);
      (forall key :: key in cache ==> key in w.cache && w.cache[key] == cache[key]) &&
      (!useCache ==> w.cache == cache)
    decreases |ps|
  {
    if |ps| > 0 {
      var key := hash(ps[0]);
      if useCache && key in cache {
        WorkAllKeeps(ps[1..], translate, hash, useCache, cache);
      } else if translate(ps[0]).Ok? {
        var x := translate(ps[0]).value;
        WorkAllKeeps(ps[1..], translate, hash, useCache, if useCache then cache[key := x] else cache);
      }
    }
  }

  /** When every worker succeeds there is one translation per paragraph, in
      order. With the cache on, each paragraph's translation is what its
      fingerprint's file holds at the end, so a paragraph that was cached
      before comes back exactly as cached; without it, each translation is
      that paragraph's own. */
  lemma {:induction false} WorkAllConsistent(ps: seq<string>, translate: string -> Result<string, Failure>, hash: string -> string,
                                              useCache: bool, cache: map<string, string>)
    ensures var w := WorkAll(ps, translate, hash, useCache, cache);
      w.result.Ok? ==> (|w.result.value| == |ps| && w.done == |ps| &&
        forall k :: 0 <= k < |ps| ==>
          (useCache ==> hash(ps[k]) in w.cache && w.cache[hash(ps[k])] == w.result.value[k]) &&
          (useCache && hash(ps[k]) in cache ==> w.result.value[k] == cache[hash(ps[k])]) &&
          (!useCache ==> translate(ps[k]) == Ok(w.result.value[k])))
    decreases |ps|
  {
    WorkAllKeeps(ps, translate, hash, useCache, cache);
    var w := WorkAll(ps, translate, hash, useCache, cache);
    if |ps| > 0 && w.result.Ok? {
      var key := hash(ps[0]);
      var next := if useCache && key in cache then cache else if useCache then cache[key := translate(ps[0]).value] else cache;
      var x := if useCache && key in cache then cache[key] else translate(ps[0]).value;
      var tail := WorkAll(ps[1..], translate, hash, useCache, next);
      assert w == After([x], 1, tail);
      WorkAllConsistent(ps[1..], translate, hash, useCache, next);
      WorkAllKeeps(ps[1..], translate, hash, useCache, next);
      forall k | 0 <= k < |ps|
        ensures (useCache ==> hash(ps[k]) in w.cache && w.cache[hash(ps[k])] == w.result.value[k]) &&
          (useCache && hash(ps[k]) in cache ==> w.result.value[k] == cache[hash(ps[k])]) &&
          (!useCache ==> translate(ps[k]) == Ok(w.result.value[k]))
      {
        if k > 0 {
          assert ps[1..][k - 1] == ps[k];
          assert w.result.value[k] == tail.result.value[k - 1];
        } else {
          assert w.result.value[0] == x;
          if useCache {
            assert key in next && next[key] == x;
          }
        }
      }
    }
  }

  /** One worker moves its paragraph from the work still to come to the
      finished ones. */
  lemma WorkStep(ps: seq<string>, i: nat, out: seq<string>, count: nat, translate: string -> Result<string, Failure>,
                 hash: string -> string, useCache: bool, cache: map<string, string>, x: string, next: map<string, string>)
    requires i < |ps|
    requires useCache && hash(ps[i]) in cache ==> x == cache[hash(ps[i])] && next == cache
    requires !(useCache && hash(ps[i]) in cache) ==>
      translate(ps[i]) == Ok(x) && next == if useCache then cache[hash(ps[i]) := x] else cache
    ensures After(out, count, WorkAll(ps[i..], translate, hash, useCache, cache)) ==
      After(out + [x], count + 1, WorkAll(ps[i + 1..], translate, hash, useCache, next))
  {
    assert ps[i..][0] == ps[i] && ps[i..][1..] == ps[i + 1..];
    var tail := WorkAll(ps[i + 1..], translate, hash, useCache, next);
    if tail.result.Ok? {
      assert out + ([x] + tail.result.value) == (out + [x]) + tail.result.value;
    }
  }

  /** A worker that raises ends the map with its error. */
  lemma WorkStop(ps: seq<string>, i: nat, out: seq<string>, count: nat, translate: string -> Result<string, Failure>,
                 hash: string -> string, useCache: bool, cache: map<string, string>, e: Failure)
    requires i < |ps| && !(useCache && hash(ps[i]) in cache) && translate(ps[i]) == Err(e)
    ensures After(out, count, WorkAll(ps[i..], translate, hash, useCache, cache)) == Work(Err(e), cache, count)
  {
    assert ps[i..][0] == ps[i];
  }

  // ---------------------------------------------------------------------
  // Reassembly.

  /** The document's frame: the body to translate and what goes around it. */
  datatype Frame = Frame(body: string, texBegin: string, texEnd: string)

  /** `defaultBegin` and `defaultEnd`: the frame of a fragment made complete. */
  const DefaultBegin: string := "\n\\documentclass[UTF8]{article}\n\\usepackage{xeCJK}\n\\usepackage{amsmath,amssymb}\n\\begin{document}\n"
  const DefaultEnd: string := "\n\\end{document}\n"

  /** The packages inserted after the declaration of a full document. */
  const Macro: string := "\\usepackage{xeCJK}\n\\usepackage{amsmath}"

  /** `texBegin + '\n' + '\n\n'.join(paragraphs) + '\n' + texEnd`. */
  function Assemble(paragraphs: seq<string>, texBegin: string, texEnd: string): string
  {
    (texBegin + "\n") + Join(paragraphs, "\n\n") + ("\n" + texEnd)
  }

  /** Where the `k`-th piece starts in the pieces joined by a separator of
      length `sepLen`. */
  function Offset(ps: seq<string>, sepLen: nat, k: nat): nat
    requires k <= |ps|
    decreases k
  {
    if k == 0 then 0 else |ps[0]| + sepLen + Offset(ps[1..], sepLen, k - 1)
  }

  lemma OccursShift(a: string, b: string, p: string, i: nat)
    requires OccursAt(b, p, i)
    ensures OccursAt(a + b, p, |a| + i)
  {
    assert (a + b)[|a| + i..|a| + i + |p|] == b[i..i + |p|];
  }

  /** Offsets grow by the piece and the separator. */
  lemma {:induction false} OffsetNext(ps: seq<string>, sepLen: nat, k: nat)
    requires k + 1 < |ps|
    ensures Offset(ps, sepLen, k + 1) == Offset(ps, sepLen, k) + |ps[k]| + sepLen
    decreases k
  {
    if k > 0 {
      OffsetNext(ps[1..], sepLen, k - 1);
      assert ps[1..][k - 1] == ps[k];
    }
  }

  /** The first piece opens the joined text, followed by the separator when
      another piece comes. */
  lemma JoinFirst(ps: seq<string>, sep: string)
    requires |ps| > 0
    ensures OccursAt(Join(ps, sep), ps[0], 0)
    ensures |ps| > 1 ==> Join(ps, sep) == (ps[0] + sep) + Join(ps[1..], sep) && OccursAt(Join(ps, sep), sep, |ps[0]|)
  {
    var j := Join(ps, sep);
    if |ps| > 1 {
      assert j == (ps[0] + sep) + Join(ps[1..], sep);
      assert j[|ps[0]|..|ps[0]| + |sep|] == sep;
    }
    assert j[..|ps[0]|] == ps[0];
  }

  /** In `sep.join(ps)` each piece stands at its offset. */
  lemma {:induction false} JoinPieceAt(ps: seq<string>, sep: string, k: nat)
    requires k < |ps|
    ensures OccursAt(Join(ps, sep), ps[k], Offset(ps, |sep|, k))
    decreases k
  {
    JoinFirst(ps, sep);
    if k > 0 {
      JoinPieceAt(ps[1..], sep, k - 1);
      assert ps[1..][k - 1] == ps[k];
      OccursShift(ps[0] + sep, Join(ps[1..], sep), ps[k], Offset(ps[1..], |sep|, k - 1));
    }
  }

  /** In `sep.join(ps)` the separator follows each piece but the last. */
  lemma {:induction false} JoinSepAt(ps: seq<string>, sep: string, k: nat)
    requires k + 1 < |ps|
    ensures OccursAt(Join(ps, sep), sep, Offset(ps, |sep|, k) + |ps[k]|)
    decreases k
  {
    JoinFirst(ps, sep);
    if k > 0 {
      JoinSepAt(ps[1..], sep, k - 1);
      assert ps[1..][k - 1] == ps[k];
      OccursShift(ps[0] + sep, Join(ps[1..], sep), sep, Offset(ps[1..], |sep|, k - 1) + |ps[k]|);
    }
  }

  /** In `sep.join(ps)` each piece stands at its offset, followed by the
      separator when another piece comes. */
  lemma JoinOffsets(ps: seq<string>, sep: string, k: nat)
    requires k < |ps|
    ensures OccursAt(Join(ps, sep), ps[k], Offset(ps, |sep|, k))
    ensures k + 1 < |ps| ==> OccursAt(Join(ps, sep), sep, Offset(ps, |sep|, k) + |ps[k]|)
  {
    JoinPieceAt(ps, sep, k);
    if k + 1 < |ps| {
      JoinSepAt(ps, sep, k);
    }
  }

  lemma OccursInside(a: string, m: string, b: string, p: string, i: nat)
    requires OccursAt(m, p, i)
    ensures OccursAt(a + m + b, p, |a| + i)
  {
    assert (a + m + b)[|a| + i..|a| + i + |p|] == m[i..i + |p|];
  }

  /** Where paragraph `k` stands in the document. */
  lemma AssembleAt(ps: seq<string>, texBegin: string, texEnd: string, k: nat)
    requires k < |ps|
    ensures OccursAt(Assemble(ps, texBegin, texEnd), ps[k], |texBegin| + 1 + Offset(ps, 2, k))
  {
    JoinOffsets(ps, "\n\n", k);
    OccursInside(texBegin + "\n", Join(ps, "\n\n"), "\n" + texEnd, ps[k], Offset(ps, 2, k));
  }

  /** Where the blank line after paragraph `k` stands in the document. */
  lemma AssembleSepAt(ps: seq<string>, texBegin: string, texEnd: string, k: nat)
    requires k + 1 < |ps|
    ensures OccursAt(Assemble(ps, texBegin, texEnd), "\n\n", |texBegin| + 1 + Offset(ps, 2, k) + |ps[k]|)
  {
    JoinOffsets(ps, "\n\n", k);
    OccursInside(texBegin + "\n", Join(ps, "\n\n"), "\n" + texEnd, "\n\n", Offset(ps, 2, k) + |ps[k]|);
  }

  /** The document starts with the begin part and a newline and ends with a
      newline and the end part; the paragraphs stand in between in their
      order, each pair separated by a blank line. */
  lemma AssembleLayout(ps: seq<string>, texBegin: string, texEnd: string)
    ensures StartsWith(Assemble(ps, texBegin, texEnd), texBegin + "\n")
    ensures EndsWith(Assemble(ps, texBegin, texEnd), "\n" + texEnd)
    ensures forall k :: 0 <= k < |ps| ==> OccursAt(Assemble(ps, texBegin, texEnd), ps[k], |texBegin| + 1 + Offset(ps, 2, k))
    ensures forall k :: 0 <= k < |ps| - 1 ==>
      OccursAt(Assemble(ps, texBegin, texEnd), "\n\n", |texBegin| + 1 + Offset(ps, 2, k) + |ps[k]|) &&
      Offset(ps, 2, k + 1) == Offset(ps, 2, k) + |ps[k]| + 2
  {
    Surrounded(texBegin + "\n", Join(ps, "\n\n"), "\n" + texEnd);
    forall k | 0 <= k < |ps|
      ensures OccursAt(Assemble(ps, texBegin, texEnd), ps[k], |texBegin| + 1 + Offset(ps, 2, k))
    {
      AssembleAt(ps, texBegin, texEnd, k);
    }
    forall k | 0 <= k < |ps| - 1
      ensures OccursAt(Assemble(ps, texBegin, texEnd), "\n\n", |texBegin| + 1 + Offset(ps, 2, k) + |ps[k]|)
      ensures Offset(ps, 2, k + 1) == Offset(ps, 2, k) + |ps[k]| + 2
    {
      AssembleSepAt(ps, texBegin, texEnd, k);
      OffsetNext(ps, 2, k);
    }
  }

  lemma Surrounded(a: string, m: string, b: string)
    ensures StartsWith(a + m + b, a) && EndsWith(a + m + b, b)
  {
    assert (a + m + b)[..|a|] == a;
    assert (a + m + b)[|a + m|..] == b;
  }


  /** The directory of `key` in a listing, as `CacheStore.Lookup` finds it. */
  function DirIn(ds: seq<Cache.Dir>, key: string): Option<Cache.Dir>
  {
    match Cache.IndexOf(ds, key)
    case None => None
    case Some(i) => Some(ds[i])
  }

  /** The listing once `remove_extra` ran: unreadable directories gone, then
      the oldest evicted. */
  function Kept(ds: seq<Cache.Dir>): seq<Cache.Dir>
  {
    Cache.Evict(Cache.Readable(ds))
  }

  /** The paragraph files the document `key` starts with when the cache is
      used on the listing `ds`: those of its directory if `remove_extra` kept
      it, none otherwise. */
  function CachedParagraphs(ds: seq<Cache.Dir>, key: string, useCache: bool): map<string, string>
  {
    if !useCache then map[]
    else match DirIn(Kept(ds), key)
      case None => map[]
      case Some(d) => d.paragraphs
  }

  /** What lines 219-232 make of a document: a document `is_complete`
      accepts is cut at its document codes, failing as `split_latex_document`
      asserts when they are out of order, and its preamble, without blank
      lines, gets the packages after its declaration; any other text becomes
      `connect_paragraphs`' result with the default frame or none. */
  predicate Framed(latex: string, makeComplete: bool, r: Result<Frame, Failure>)
  {
    if LatexDoc.IsComplete(latex) then
      match LatexDoc.SplitLatexDocument(latex, LatexDoc.BeginDocument, LatexDoc.EndDocument)
      case Err(_) => r == Err(NotComplete)
      case Ok(parts) =>
        r == match LatexDoc.InsertMacro(LatexDoc.RemoveBlankLines(parts.pre), Macro)
          case Err(_) => Err(NoDeclaration)
          case Ok(head) => Ok(Frame(parts.body, head, parts.post))
    else
      r == Ok(Frame(Paragraphs.Connect(latex),
                    if makeComplete then DefaultBegin else "",
                    if makeComplete then DefaultEnd else ""))
  }

  /** A document whose end code starts after its begin code is always cut:
      the split fails only on the order `is_complete` lets through. */
  lemma FramedStrict(latex: string, makeComplete: bool, r: Result<Frame, Failure>)
    requires LatexDoc.IsCompleteStrict(latex) && Framed(latex, makeComplete, r)
    ensures r != Err(NotComplete)
  {
    LatexDoc.IsCompleteStrictSplits(latex);
    assert LatexDoc.IsComplete(latex);
  }

  /** `\documentclass{}\end{document}\begin{document}` passes `is_complete`
      and then fails to split. */
  lemma FramedEndBeforeBegin(makeComplete: bool, r: Result<Frame, Failure>)
    requires Framed(LatexDoc.EndBeforeBegin, makeComplete, r)
    ensures r == Err(NotComplete)
  {
    LatexDoc.IsCompleteAdmitsFailedSplit();
  }

  // ---------------------------------------------------------------------
  // The text of a LaTeX paragraph.

  /** `formatList`: the formats dropped from a paragraph before its objects
      are taken out. */
  const FormatList: seq<string> := ["textbf", "textit", "emph"]

  /** `delete_specific_format` for each of `names` in turn. */
  function DeleteFormats(latex: string, names: seq<string>): string
  {
    if |names| == 0 then latex
    else Rewriters.DeleteSpecificFormat(DeleteFormats(latex, names[..|names| - 1]), names[|names| - 1])
  }

  /** The patterns `replace_latex_objects` uses with its defaults. */
  function ParagraphPatterns(mularg: seq<Extract.MulargCommand>): seq<Matchers.Pattern>
  {
    Extract.ObjectPatterns(mularg, true, true)
  }

  /** Command names taken without their arguments must hold no space. */
  predicate SpacelessNames(mularg: seq<Extract.MulargCommand>)
  {
    forall k :: 0 <= k < |mularg| ==> forall j :: 0 <= j < |mularg[k].name| ==> mularg[k].name[j] != ' '
  }

  /** The objects a paragraph gives up. */
  function ParagraphObjects(latex: string, mathCode: string, mularg: seq<Extract.MulargCommand>): seq<string>
    requires Extract.ValidMathCode(mathCode)
  {
    Extract.ExtractAll(DeleteFormats(latex, FormatList), mathCode, ParagraphPatterns(mularg), 0).objs
  }

  /** A paragraph with its objects replaced and its lines joined into
      sentences: what `split_too_long_paragraphs` receives. */
  function ParagraphSentences(latex: string, mathCode: string, mularg: seq<Extract.MulargCommand>): string
    requires Extract.ValidMathCode(mathCode)
  {
    var e := Extract.ExtractAll(DeleteFormats(latex, FormatList), mathCode, ParagraphPatterns(mularg), 0);
    LatexDoc.CombineSplitToSentences(Placeholder.ModifyText(e.text, mathCode, Extract.ModifyBefore), mathCode)
  }

  /** The objects of the first `n` pieces of a paragraph, counted. */
  function ObjectTotal(pieces: seq<string>, mathCode: string, mularg: seq<Extract.MulargCommand>): nat
    requires Extract.ValidMathCode(mathCode)
  {
    if |pieces| == 0 then 0
    else ObjectTotal(pieces[..|pieces| - 1], mathCode, mularg) + |ParagraphObjects(pieces[|pieces| - 1], mathCode, mularg)|
  }

  /** The objects taken out of a paragraph without a sentinel are nested, so
      putting them back ends and leaves no sentinel behind. */
  lemma ParagraphObjectsNested(latex: string, mathCode: string, mularg: seq<Extract.MulargCommand>)
    requires Nested.SafeMathCode(mathCode) && SpacelessNames(mularg)
    requires Nested.NoSentinel(DeleteFormats(latex, FormatList), mathCode)
    ensures Restore.NestedObjects(ParagraphObjects(latex, mathCode, mularg), mathCode)
  {
    Nested.ObjectPatternsClosed(mularg, true, true);
    Nested.ExtractNested(DeleteFormats(latex, FormatList), mathCode, ParagraphPatterns(mularg));
  }

  // ---------------------------------------------------------------------
  // `LatexTranslator`.

  class LatexTranslator {
    const translator: TextTranslator
    /** The cache directory the `cache` module works on. */
    const store: Cache.CacheStore
    var addCache: bool
    /** The fingerprint of the document being translated. */
    var hashKey: string
    var complete: bool
    var nbad: int
    var ntotal: int
    /** How many workers have finished. */
    var num: nat

    constructor(translator: TextTranslator, store: Cache.CacheStore)
      ensures this.translator == translator && this.store == store
      ensures !addCache && hashKey == "" && !complete && nbad == 0 && ntotal == 0 && num == 0
    {
      this.translator := translator;
      this.store := store;
      addCache := false;
      hashKey := "";
      complete := false;
      nbad := 0;
      ntotal := 0;
      num := 0;
    }

    /** `[self.translator.translate(part) for part in parts]`: the parts go to
        the engine one after the other and the first error ends the list. */
    method TranslateParts(parts: seq<string>) returns (r: Result<seq<string>, Failure>)
      modifies translator
      ensures var run := TranslateAll(parts, old(translator.replies));
        r == run.result && translator.replies == run.rest &&
        translator.numberOfCalls == old(translator.numberOfCalls) + run.calls &&
        translator.totChar == old(translator.totChar) + run.chars
    {
      var done: seq<string> := [];
      ghost var calls: nat := 0;
      ghost var chars: nat := 0;
      assert Prepend(done, calls, chars, TranslateAll(parts, translator.replies)) == TranslateAll(parts, translator.replies) by {
        var run := TranslateAll(parts, translator.replies);
        if run.result.Ok? {
          assert done + run.result.value == run.result.value;
        }
      }
      var i := 0;
      while i < |parts|
        invariant 0 <= i <= |parts|
        invariant Prepend(done, calls, chars, TranslateAll(parts[i..], translator.replies)) == TranslateAll(parts, old(translator.replies))
        invariant translator.numberOfCalls == old(translator.numberOfCalls) + calls
        invariant translator.totChar == old(translator.totChar) + chars
      {
        ghost var before := translator.replies;
        ghost var c := Answer(parts[i], before);
        var x := translator.Translate(parts[i]);
        if x.Err? {
          PrependStop(parts, i, done, calls, chars, before, c);
          return Err(x.error);
        }
        PrependStep(parts, i, done, calls, chars, before, c);
        done := done + [x.value];
        calls := calls + CallsOf(parts[i], c);
        chars := chars + CharsOf(parts[i], c);
        i := i + 1;
      }
      assert parts[i..] == [];
      assert done + [] == done;
      return Ok(done);
    }

    /** `translate_paragraph_text`: the text is packed into parts under the
        limit, each part translated, the translations joined by newlines and
        the zero-width spaces dropped. A line at the limit stops it before
        anything is sent. */
    method TranslateParagraphText(text: string) returns (r: Result<string, Failure>)
      modifies translator
      ensures TooLong(Split(text, '\n')) ==> (r == Err(LineTooLong) && translator.replies == old(translator.replies) &&
        translator.numberOfCalls == old(translator.numberOfCalls) && translator.totChar == old(translator.totChar))
      ensures !TooLong(Split(text, '\n')) ==>
        var run := TranslateAll(Pack(Split(text, '\n'), "", []), old(translator.replies));
        r == (if run.result.Ok? then Ok(DropZeroWidth(Join(run.result.value, "\n"))) else Err(run.result.error)) &&
        translator.replies == run.rest &&
        translator.numberOfCalls == old(translator.numberOfCalls) + run.calls &&
        translator.totChar == old(translator.totChar) + run.chars
      ensures r.Ok? ==> ZeroWidthSpace !in r.value
      ensures !HasLetter(text) && !TooLong(Split(text, '\n')) ==>
        r == Ok(DropZeroWidth("\n" + text)) && translator.replies == old(translator.replies)
    {
      var packed := PackLines(text);
      if packed.Err? {
        return Err(packed.error);
      }
      if !HasLetter(text) {
        assert !HasLetter("\n" + text) by {
          forall j | 0 <= j < |"\n" + text| ensures !IsLetter(("\n" + text)[j]) {
            if j > 0 {
              assert ("\n" + text)[j] == text[j - 1];
            }
          }
        }
        NoLetterPieces(packed.value, "\n");
        TranslateAllNoLetter(packed.value, translator.replies);
      }
      var translated := TranslateParts(packed.value);
      if translated.Err? {
        return Err(translated.error);
      }
      var joined := Join(translated.value, "\n");
      DropZeroWidthSpec(joined);
      return Ok(DropZeroWidth(joined));
    }

    /** The first half of `_translate_text_in_paragraph_latex(paragraph)`,
        with the sentinel `mathCode` and the entries of `mularg_command_list`
        given: the formats are dropped, the objects taken out, the lines
        joined into sentences, long lines cut, titles set apart when the
        document is not complete and runs of spaces collapsed. The objects
        come out nested, as putting them back needs. */
    method PrepareParagraphText(latex: string, mathCode: string, mularg: seq<Extract.MulargCommand>)
      returns (r: Result<string, Failure>, objs: seq<string>)
      requires Nested.SafeMathCode(mathCode) && SpacelessNames(mularg)
      requires Nested.NoSentinel(DeleteFormats(latex, FormatList), mathCode)
      ensures objs == ParagraphObjects(latex, mathCode, mularg) && Restore.NestedObjects(objs, mathCode)
      ensures r.Err? <==> Paragraphs.SplitTooLong(ParagraphSentences(latex, mathCode, mularg)).Err?
      ensures r.Err? ==> r.error == Unsplittable
      ensures r.Ok? ==> forall k :: 0 < k < |r.value| && r.value[k] == ' ' ==> r.value[k - 1] != ' '
    {
      var paragraph := latex;
      for k := 0 to |FormatList|
        invariant paragraph == DeleteFormats(latex, FormatList[..k])
      {
        assert FormatList[..k + 1][..k] == FormatList[..k];
        paragraph := Rewriters.DeleteSpecificFormat(paragraph, FormatList[k]);
      }
      assert FormatList[..|FormatList|] == FormatList;
      var text;
      text, objs := Extract.ReplaceLatexObjects(paragraph, mathCode, ParagraphPatterns(mularg));
      ParagraphObjectsNested(latex, mathCode, mularg);
      text := LatexDoc.CombineSplitToSentences(text, mathCode);
      var split := Paragraphs.SplitTooLong(text);
      if split.Err? {
        return Err(Unsplittable), objs;
      }
      text := split.value;
      if !complete {
        text := Paragraphs.SplitTitles(text);
      }
      CollapseSpacesSpec(text);
      return Ok(CollapseSpaces(text)), objs;
    }

    /** `_translate_text_in_paragraph_latex(paragraph)`, with the
        `testEnvironment` flag given: the prepared text is translated and the
        objects put back. The paragraph's objects are added to `ntotal` and
        the mismatches to `nbad`; the result holds no sentinel. */
    method TranslateTextInParagraph(latex: string, mathCode: string, mularg: seq<Extract.MulargCommand>, testEnv: bool)
      returns (r: Result<string, Failure>)
      requires Nested.SafeMathCode(mathCode) && SpacelessNames(mularg)
      requires Nested.NoSentinel(DeleteFormats(latex, FormatList), mathCode)
      modifies translator, this`nbad, this`ntotal
      ensures r.Err? ==> nbad == old(nbad) && ntotal == old(ntotal)
      ensures r.Ok? ==> nbad >= old(nbad) && ntotal == old(ntotal) + |ParagraphObjects(latex, mathCode, mularg)|
      ensures r.Ok? ==> Nested.NoSentinel(r.value, mathCode)
      ensures Paragraphs.SplitTooLong(ParagraphSentences(latex, mathCode, mularg)).Err? ==>
        r == Err(Unsplittable) && translator.replies == old(translator.replies)
    {
      var text, objs := PrepareParagraphText(latex, mathCode, mularg);
      if text.Err? {
        return Err(text.error);
      }
      var translated := TranslateParagraphText(text.value);
      if translated.Err? {
        return Err(translated.error);
      }
      var recovered := Restore.RecoverLatexObjects(translated.value, objs, mathCode, testEnv, true);
      if recovered.Err? {
        return Err(Unrecoverable(recovered.error));
      }
      nbad := nbad + recovered.value.nBad;
      ntotal := ntotal + recovered.value.nobjs;
      return Ok(recovered.value.text);
    }

    /** `translate_text_in_paragraph_latex(paragraph)`, with the pieces and
        separators `split_by_command` returns given: each piece is
        translated and followed by a space, its separator and a space; the
        first error ends it, the counters keeping what the pieces before
        added. */
    method TranslateTextInParagraphLatex(pieces: seq<string>, seps: seq<string>, mathCode: string,
                                         mularg: seq<Extract.MulargCommand>, testEnv: bool)
      returns (r: Result<string, Failure>)
      requires Nested.SafeMathCode(mathCode) && SpacelessNames(mularg)
      requires forall k :: 0 <= k < |pieces| ==> Nested.NoSentinel(DeleteFormats(pieces[k], FormatList), mathCode)
      modifies translator, this`nbad, this`ntotal
      ensures nbad >= old(nbad) && ntotal >= old(ntotal)
      ensures r.Ok? ==> ntotal == old(ntotal) + ObjectTotal(pieces[..if |pieces| < |seps| then |pieces| else |seps|], mathCode, mularg)
    {
      var n := if |pieces| < |seps| then |pieces| else |seps|;
      var result := "";
      for i := 0 to n
        invariant nbad >= old(nbad)
        invariant ntotal == old(ntotal) + ObjectTotal(pieces[..i], mathCode, mularg)
      {
        var piece := TranslateTextInParagraph(pieces[i], mathCode, mularg, testEnv);
        if piece.Err? {
          return Err(piece.error);
        }
        assert pieces[..i + 1][..i] == pieces[..i];
        result := result + piece.value + " " + seps[i] + " ";
      }
      return Ok(result);
    }

    /** `worker(paragraph)` with `translate` standing for
        `translate_paragraph_latex` and `hash` for `deterministic_hash`: with
        the cache on, a paragraph whose file exists is read from it, any other
        is translated and its file written; without it, the paragraph is
        translated. Only a worker that returns counts. */
    method Worker(paragraph: string, translate: string -> Result<string, Failure>, hash: string -> string)
      returns (r: Result<string, Failure>)
      requires store.Valid()
      modifies this`num, store
      ensures store.Valid()
      ensures num == old(num) + (if r.Ok? then 1 else 0)
      ensures !addCache ==> r == translate(paragraph) && store.dirs == old(store.dirs)
      ensures addCache && old(store.LoadParagraph(hashKey, hash(paragraph))).Some? ==>
        r == Ok(old(store.LoadParagraph(hashKey, hash(paragraph))).value) && store.dirs == old(store.dirs)
      ensures addCache && old(store.LoadParagraph(hashKey, hash(paragraph))).None? ==>
        var d := old(store.Lookup(hashKey));
        if translate(paragraph).Err? then r == translate(paragraph) && store.dirs == old(store.dirs)
        else if d.None? then r == Err(CacheUnwritable) && store.dirs == old(store.dirs)
        else (r == translate(paragraph) &&
          store.Lookup(hashKey) == Some(d.value.(paragraphs := d.value.paragraphs[hash(paragraph) := r.value])) &&
          forall k :: k != hashKey ==> store.Lookup(k) == old(store.Lookup(k)))
    {
      var latex: Result<string, Failure>;
      if addCache {
        var pkey := hash(paragraph);
        var loaded := store.LoadParagraph(hashKey, pkey);
        if loaded.Some? {
          latex := Ok(loaded.value);
        } else {
          latex := translate(paragraph);
          if latex.Ok? {
            var ok := store.WriteParagraph(hashKey, pkey, latex.value);
            if !ok {
              latex := Err(CacheUnwritable);
            }
          }
        }
      } else {
        latex := translate(paragraph);
      }
      if latex.Ok? {
        num := num + 1;
      }
      return latex;
    }

    /** `list(executor.map(self.worker, paragraphs))`, the workers taken one
        after the other: the translations in order, or the first error. */
    method TranslateParagraphs(ps: seq<string>, translate: string -> Result<string, Failure>, hash: string -> string)
      returns (r: Result<seq<string>, Failure>)
      requires store.Valid() && (addCache ==> store.IsCached(hashKey))
      modifies this`num, store
      ensures store.Valid()
      ensures var w := WorkAll(ps, translate, hash, addCache, if addCache then old(store.Lookup(hashKey)).value.paragraphs else map[]);
        r == w.result && num == old(num) + w.done &&
        (addCache ==> (store.Lookup(hashKey) == Some(old(store.Lookup(hashKey)).value.(paragraphs := w.cache)) &&
          forall k :: k != hashKey ==> store.Lookup(k) == old(store.Lookup(k)))) &&
        (!addCache ==> store.dirs == old(store.dirs))
    {
      ghost var d0 := store.Lookup(hashKey);
      ghost var cache: map<string, string> := if addCache then d0.value.paragraphs else map[];
      ghost var m0 := cache;
      var out: seq<string> := [];
      ghost var count: nat := 0;
      assert After(out, count, WorkAll(ps, translate, hash, addCache, cache)) == WorkAll(ps, translate, hash, addCache, cache) by {
        var w := WorkAll(ps, translate, hash, addCache, cache);
        if w.result.Ok? {
          assert out + w.result.value == w.result.value;
        }
      }
      var i := 0;
      while i < |ps|
        invariant 0 <= i <= |ps| && store.Valid()
        invariant After(out, count, WorkAll(ps[i..], translate, hash, addCache, cache)) == WorkAll(ps, translate, hash, addCache, m0)
        invariant num == old(num) + count
        invariant addCache ==> (store.Lookup(hashKey) == Some(d0.value.(paragraphs := cache)) &&
          forall k :: k != hashKey ==> store.Lookup(k) == old(store.Lookup(k)))
        invariant !addCache ==> store.dirs == old(store.dirs) && cache == m0
      {
        var x := Worker(ps[i], translate, hash);
        if x.Err? {
          WorkStop(ps, i, out, count, translate, hash, addCache, cache, x.error);
          return Err(x.error);
        }
        ghost var next := if addCache && hash(ps[i]) !in cache then cache[hash(ps[i]) := x.value] else cache;
        WorkStep(ps, i, out, count, translate, hash, addCache, cache, x.value, next);
        cache := next;
        out := out + [x.value];
        count := count + 1;
        i := i + 1;
      }
      assert ps[i..] == [];
      assert out + [] == out;
      return Ok(out);
    }
  
    /** Lines 198-208: with the cache on, stale directories are removed, the
        document's fingerprint `key` becomes `hashKey` and its directory is
        created or touched at `now`, keeping the files it had; the object
        counters restart. */
    method StartDocument(key: string, noCache: bool, now: int)
      requires store.Valid()
      modifies this`addCache, this`hashKey, this`nbad, this`ntotal, store
      ensures store.Valid() && addCache == !noCache && nbad == 0 && ntotal == 0
      ensures !noCache ==> (hashKey == key &&
        store.Lookup(key) == Some(Cache.Dir(key, Cache.Written(now), CachedParagraphs(old(store.dirs), key, true))) &&
        forall k :: k != key ==> store.Lookup(k) == DirIn(Kept(old(store.dirs)), k))
      ensures noCache ==> hashKey == old(hashKey) && store.dirs == old(store.dirs)
    {
      addCache := !noCache;
      if addCache {
        store.RemoveExtra();
        hashKey := key;
        store.CreateCache(key, now);
      }
      nbad := 0;
      ntotal := 0;
    }

    /** Lines 219-232: whether the document is complete, and its frame. */
    method FrameDocument(latex: string, makeComplete: bool) returns (r: Result<Frame, Failure>)
      modifies this`complete
      ensures complete == LatexDoc.IsComplete(latex)
      ensures Framed(latex, makeComplete, r)
    {
      complete := LatexDoc.IsComplete(latex);
      if complete {
        var parts := LatexDoc.SplitLatexDocument(latex, LatexDoc.BeginDocument, LatexDoc.EndDocument);
        if parts.Err? {
          return Err(NotComplete);
        }
        var head := LatexDoc.InsertMacro(LatexDoc.RemoveBlankLines(parts.value.pre), Macro);
        if head.Err? {
          return Err(NoDeclaration);
        }
        return Ok(Frame(parts.value.body, head.value, parts.value.post));
      }
      var body := Paragraphs.ConnectParagraphs(latex);
      if makeComplete {
        return Ok(Frame(body, DefaultBegin, DefaultEnd));
      }
      return Ok(Frame(body, "", ""));
    }

    /** `translate_full_latex` after `StartDocument` (lines 219-245), for a
        document already through the preprocessing of lines 210-217, with
        `split` standing for `split_latex_to_paragraphs`, `translate` for
        `translate_paragraph_latex` and `hash` for `deterministic_hash`. The
        frame is the one `Framed` describes; the body's paragraphs go through
        the workers in order, starting from the files the document's directory
        holds, and the translations are put back inside the frame. */
    method TranslateDocument(latex: string, makeComplete: bool, split: string -> seq<string>,
                             translate: string -> Result<string, Failure>, hash: string -> string)
      returns (r: Result<string, Failure>, framed: Result<Frame, Failure>)
      requires store.Valid() && (addCache ==> store.IsCached(hashKey))
      modifies this`complete, this`num, store
      ensures store.Valid()
      ensures complete == LatexDoc.IsComplete(latex) && Framed(latex, makeComplete, framed)
      ensures framed.Err? ==> r == Err(framed.error) && num == old(num) && store.dirs == old(store.dirs)
      ensures framed.Ok? ==>
        var w := WorkAll(split(framed.value.body), translate, hash, addCache, if addCache then old(store.Lookup(hashKey)).value.paragraphs else map[]);
        r == (if w.result.Ok? then Ok(Assemble(w.result.value, framed.value.texBegin, framed.value.texEnd)) else Err(w.result.error)) &&
        num == w.done &&
        (addCache ==> store.Lookup(hashKey) == Some(old(store.Lookup(hashKey)).value.(paragraphs := w.cache))) &&
        (!addCache ==> store.dirs == old(store.dirs))
      ensures addCache ==> forall k :: k != hashKey ==> store.Lookup(k) == old(store.Lookup(k))
    {
      framed := FrameDocument(latex, makeComplete);
      if framed.Err? {
        return Err(framed.error), framed;
      }
      var paragraphs := split(framed.value.body);
      num := 0;
      var translated := TranslateParagraphs(paragraphs, translate, hash);
      if translated.Err? {
        return Err(translated.error), framed;
      }
      return Ok(Assemble(translated.value, framed.value.texBegin, framed.value.texEnd)), framed;
    }
  }
}
