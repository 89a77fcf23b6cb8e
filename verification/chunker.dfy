/** The line-preserving text chunker of the code indexer (`chunkText` in
    dev-tools/index-codebase.js). Lengths count Unicode scalar values;
    JavaScript's `length` counts UTF-16 code units, so a line holding
    characters outside the Basic Multilingual Plane is measured shorter here
    than in the source. */
module Chunker {

  /** `s.split('\n')`: the pieces between newlines, at least one. */
  function Split(s: string): (r: seq<string>)
    ensures |r| >= 1
    ensures forall i :: 0 <= i < |r| ==> '\n' !in r[i]
    ensures Join(r) == s
  {
    if '\n' !in s then [s]
    else
      var i := FirstNewline(s);
      var r := [s[..i]] + Split(s[i + 1..]);
      assert s == s[..i] + "\n" + s[i + 1..];
      r
  }

  function FirstNewline(s: string): (i: nat)
    requires '\n' in s
    ensures i < |s| && s[i] == '\n' && '\n' !in s[..i]
  {
    if s[0] == '\n' then 0
    else
      var j := FirstNewline(s[1..]);
      assert s[..j + 1] == [s[0]] + s[1..][..j];
      j + 1
  }

  /** `pieces.join('\n')`. */
  function Join(pieces: seq<string>): string
  {
    if |pieces| == 0 then ""
    else if |pieces| == 1 then pieces[0]
    else pieces[0] + "\n" + Join(pieces[1..])
  }

  function Flatten(groups: seq<seq<string>>): seq<string>
  {
    if |groups| == 0 then [] else groups[0] + Flatten(groups[1..])
  }

  lemma FlattenAppend(groups: seq<seq<string>>, g: seq<string>)
    ensures Flatten(groups + [g]) == Flatten(groups) + g
  {
    if |groups| > 0 {
      assert (groups + [g])[1..] == groups[1..] + [g];
    }
  }

  lemma {:induction false} JoinAppend(a: seq<string>, b: seq<string>)
    requires |a| >= 1 && |b| >= 1
    ensures Join(a + b) == Join(a) + "\n" + Join(b)
    decreases |a|
  {
    if |a| > 1 {
      assert (a + b)[1..] == a[1..] + b;
      JoinAppend(a[1..], b);
    }
  }

  lemma {:induction false} JoinOfJoins(groups: seq<seq<string>>)
    requires forall k :: 0 <= k < |groups| ==> |groups[k]| >= 1
    ensures Join(seq(|groups|, k requires 0 <= k < |groups| => Join(groups[k]))) == Join(Flatten(groups))
    decreases |groups|
  {
    if |groups| > 1 {
      var js := seq(|groups|, k requires 0 <= k < |groups| => Join(groups[k]));
      var js' := seq(|groups| - 1, k requires 0 <= k < |groups| - 1 => Join(groups[1..][k]));
      assert js[1..] == js';
      JoinOfJoins(groups[1..]);
      FlattenNonEmpty(groups[1..]);
      JoinAppend(groups[0], Flatten(groups[1..]));
    } else if |groups| == 1 {
      assert Flatten(groups) == groups[0] + Flatten(groups[1..]);
      assert groups[1..] == [];
      assert Flatten(groups) == groups[0];
    }
  }

  lemma {:induction false} FlattenLength(groups: seq<seq<string>>)
    requires forall k :: 0 <= k < |groups| ==> |groups[k]| >= 1
    ensures |Flatten(groups)| >= |groups|
    decreases |groups|
  {
    if |groups| > 0 {
      FlattenLength(groups[1..]);
    }
  }

  lemma FlattenNonEmpty(groups: seq<seq<string>>)
    requires |groups| >= 1 && |groups[0]| >= 1
    ensures |Flatten(groups)| >= 1
  {
  }

  /** Each line counted with its separator. */
  function LineSum(g: seq<string>): nat
  {
    if |g| == 0 then 0 else |g[0]| + 1 + LineSum(g[1..])
  }

  lemma {:induction false} LineSumSnoc(g: seq<string>, line: string)
    ensures LineSum(g + [line]) == LineSum(g) + |line| + 1
    decreases |g|
  {
    if |g| > 0 {
      assert (g + [line])[1..] == g[1..] + [line];
      LineSumSnoc(g[1..], line);
    }
  }

  /** `currentSize` after the lines of `g` have entered one chunk: each line
      counts its length plus one, except the line that opened a chunk after a
      break, which counts only its length. */
  function RunSize(g: seq<string>, openedByBreak: bool): int
  {
    LineSum(g) - (if openedByBreak && |g| > 0 then 1 else 0)
  }

  lemma RunSizeSnoc(g: seq<string>, openedByBreak: bool, line: string)
    requires |g| >= 1 || !openedByBreak
    ensures RunSize(g + [line], openedByBreak) == RunSize(g, openedByBreak) + |line| + 1
  {
    LineSumSnoc(g, line);
  }

  /** Inside one chunk every line after the first fitted: the running size plus
      its length stayed within `maxChunkSize`. */
  ghost predicate Fits(g: seq<string>, openedByBreak: bool, maxChunkSize: int)
  {
    forall j :: 0 < j < |g| ==> RunSize(g[..j], openedByBreak) + |g[j]| <= maxChunkSize
  }

  /** The first line of `next` did not fit after the lines of `prev`. */
  ghost predicate Overflows(prev: seq<string>, prevOpenedByBreak: bool, next: seq<string>, maxChunkSize: int)
  {
    |next| >= 1 ==> RunSize(prev, prevOpenedByBreak) + |next[0]| > maxChunkSize
  }

  /** The packing rule: inside a chunk every later line fitted, and every chunk
      after the first was opened because its first line did not fit in the previous. */
  ghost predicate Packed(groups: seq<seq<string>>, maxChunkSize: int)
  {
    (forall k :: 0 <= k < |groups| ==> Fits(groups[k], k > 0, maxChunkSize))
    && (forall k :: 0 < k < |groups| ==> Overflows(groups[k - 1], k > 1, groups[k], maxChunkSize))
  }

  lemma PackedAppend(groups: seq<seq<string>>, g: seq<string>, maxChunkSize: int)
    requires Packed(groups, maxChunkSize)
    requires Fits(g, |groups| > 0, maxChunkSize)
    requires |groups| > 0 ==> Overflows(groups[|groups| - 1], |groups| > 1, g, maxChunkSize)
    ensures Packed(groups + [g], maxChunkSize)
  {
    var gs := groups + [g];
    assert forall k :: 0 <= k < |groups| ==> gs[k] == groups[k];
  }

  lemma FitsExtend(g: seq<string>, openedByBreak: bool, line: string, maxChunkSize: int)
    requires Fits(g, openedByBreak, maxChunkSize)
    requires |g| >= 1 ==> RunSize(g, openedByBreak) + |line| <= maxChunkSize
    ensures Fits(g + [line], openedByBreak, maxChunkSize)
  {
    var g' := g + [line];
    forall j | 0 < j < |g'|
      ensures RunSize(g'[..j], openedByBreak) + |g'[j]| <= maxChunkSize
    {
      if j < |g| {
        assert g'[..j] == g[..j];
      } else {
        assert g'[..j] == g;
      }
    }
  }

  /** What holds after the first `i` lines have been handled: finished chunks
      from `groups`, and the open chunk `current`. */
  ghost predicate Inv(lines: seq<string>, i: nat, groups: seq<seq<string>>,
                      current: seq<string>, currentSize: int, maxChunkSize: int)
  {
    && i <= |lines|
    && (|current| >= 1 <==> i >= 1)
    && (i == 0 ==> |groups| == 0)
    && (forall k :: 0 <= k < |groups| ==> |groups[k]| >= 1)
    && Flatten(groups) + current == lines[..i]
    && currentSize == RunSize(current, |groups| > 0)
    && Packed(groups, maxChunkSize)
    && Fits(current, |groups| > 0, maxChunkSize)
    && (|groups| > 0 ==> Overflows(groups[|groups| - 1], |groups| > 1, current, maxChunkSize))
  }

  /** The `for` loop of `chunkText` from line `i` on, with the chunk state
      (`groups` closed, `current` open, its `currentSize`); the result lists the
      lines of every chunk pushed, the last one included. */
  function Pack(lines: seq<string>, i: nat, groups: seq<seq<string>>, current: seq<string>,
                currentSize: int, maxChunkSize: int): seq<seq<string>>
    requires i <= |lines|
    decreases |lines| - i
  {
    if i == |lines| then
      if |current| > 0 then groups + [current] else groups
    else if currentSize + |lines[i]| > maxChunkSize && |current| > 0 then
      Pack(lines, i + 1, groups + [current], [lines[i]], |lines[i]|, maxChunkSize)
    else
      Pack(lines, i + 1, groups, current + [lines[i]], currentSize + |lines[i]| + 1, maxChunkSize)
  }

  lemma InvBreak(lines: seq<string>, i: nat, groups: seq<seq<string>>,
                 current: seq<string>, currentSize: int, maxChunkSize: int)
    requires Inv(lines, i, groups, current, currentSize, maxChunkSize)
    requires i < |lines| && |current| > 0 && currentSize + |lines[i]| > maxChunkSize
    ensures Inv(lines, i + 1, groups + [current], [lines[i]], |lines[i]|, maxChunkSize)
  {
    var line := lines[i];
    PackedAppend(groups, current, maxChunkSize);
    FlattenAppend(groups, current);
    assert lines[..i + 1] == lines[..i] + [line];
    assert LineSum([line]) == |line| + 1 + LineSum([]);
  }

  lemma InvExtend(lines: seq<string>, i: nat, groups: seq<seq<string>>,
                  current: seq<string>, currentSize: int, maxChunkSize: int)
    requires Inv(lines, i, groups, current, currentSize, maxChunkSize)
    requires i < |lines| && !(currentSize + |lines[i]| > maxChunkSize && |current| > 0)
    ensures Inv(lines, i + 1, groups, current + [lines[i]], currentSize + |lines[i]| + 1, maxChunkSize)
  {
    var line := lines[i];
    FitsExtend(current, |groups| > 0, line, maxChunkSize);
    RunSizeSnoc(current, |groups| > 0, line);
    assert lines[..i + 1] == lines[..i] + [line];
    assert Flatten(groups) + (current + [line]) == lines[..i] + [line];
    if |groups| > 0 && |current| >= 1 {
      assert (current + [line])[0] == current[0];
    }
  }

  lemma InvFinal(lines: seq<string>, i: nat, groups: seq<seq<string>>,
                 current: seq<string>, currentSize: int, maxChunkSize: int)
    requires |lines| >= 1 && i == |lines|
    requires Inv(lines, i, groups, current, currentSize, maxChunkSize)
    ensures GoodPacking(groups + [current], lines, maxChunkSize)
  {
    assert lines[..i] == lines;
    PackedAppend(groups, current, maxChunkSize);
    FlattenAppend(groups, current);
  }

  /** `gs` are the non-empty, greedily packed groups of `lines`. */
  ghost predicate GoodPacking(gs: seq<seq<string>>, lines: seq<string>, maxChunkSize: int)
  {
    && |gs| >= 1
    && (forall k :: 0 <= k < |gs| ==> |gs[k]| >= 1)
    && Flatten(gs) == lines
    && Packed(gs, maxChunkSize)
  }

  /** Every run of the loop from a state satisfying `Inv` packs all the lines. */
  lemma {:induction false} PackSound(lines: seq<string>, i: nat, groups: seq<seq<string>>,
                                     current: seq<string>, currentSize: int, maxChunkSize: int)
    requires |lines| >= 1
    requires Inv(lines, i, groups, current, currentSize, maxChunkSize)
    ensures GoodPacking(Pack(lines, i, groups, current, currentSize, maxChunkSize), lines, maxChunkSize)
    decreases |lines| - i, 1
  {
    if i == |lines| {
      InvFinal(lines, i, groups, current, currentSize, maxChunkSize);
      assert Pack(lines, i, groups, current, currentSize, maxChunkSize) == groups + [current];
    } else if currentSize + |lines[i]| > maxChunkSize && |current| > 0 {
      PackBreakSound(lines, i, groups, current, currentSize, maxChunkSize);
    } else {
      PackExtendSound(lines, i, groups, current, currentSize, maxChunkSize);
    }
  }

  /** The step that closes the open chunk. */
  lemma {:induction false} PackBreakSound(lines: seq<string>, i: nat, groups: seq<seq<string>>,
                                          current: seq<string>, currentSize: int, maxChunkSize: int)
    requires |lines| >= 1 && i < |lines|
    requires Inv(lines, i, groups, current, currentSize, maxChunkSize)
    requires currentSize + |lines[i]| > maxChunkSize && |current| > 0
    ensures GoodPacking(Pack(lines, i, groups, current, currentSize, maxChunkSize), lines, maxChunkSize)
    decreases |lines| - i, 0
  {
    InvBreak(lines, i, groups, current, currentSize, maxChunkSize);
    PackSound(lines, i + 1, groups + [current], [lines[i]], |lines[i]|, maxChunkSize);
    assert Pack(lines, i, groups, current, currentSize, maxChunkSize)
        == Pack(lines, i + 1, groups + [current], [lines[i]], |lines[i]|, maxChunkSize);
  }

  /** The step that adds a line to the open chunk. */
  lemma {:induction false} PackExtendSound(lines: seq<string>, i: nat, groups: seq<seq<string>>,
                                           current: seq<string>, currentSize: int, maxChunkSize: int)
    requires |lines| >= 1 && i < |lines|
    requires Inv(lines, i, groups, current, currentSize, maxChunkSize)
    requires !(currentSize + |lines[i]| > maxChunkSize && |current| > 0)
    ensures GoodPacking(Pack(lines, i, groups, current, currentSize, maxChunkSize), lines, maxChunkSize)
    decreases |lines| - i, 0
  {
    InvExtend(lines, i, groups, current, currentSize, maxChunkSize);
    PackSound(lines, i + 1, groups, current + [lines[i]], currentSize + |lines[i]| + 1, maxChunkSize);
    assert Pack(lines, i, groups, current, currentSize, maxChunkSize)
        == Pack(lines, i + 1, groups, current + [lines[i]], currentSize + |lines[i]| + 1, maxChunkSize);
  }

  /** The lines behind each chunk of `chunkText(text, maxChunkSize)`: the
      lines of the text, in order, never split, grouped greedily, so a line
      joins the open chunk exactly when it fits. */
  function ChunkGroups(text: string, maxChunkSize: int): (gs: seq<seq<string>>)
    ensures GoodPacking(gs, Split(text), maxChunkSize)
  {
    var lines := Split(text);
    assert Inv(lines, 0, [], [], 0, maxChunkSize);
    PackSound(lines, 0, [], [], 0, maxChunkSize);
    Pack(lines, 0, [], [], 0, maxChunkSize)
  }

  /** `chunkText(text, maxChunkSize)`: every chunk joins its lines with newlines. */
  function ChunkText(text: string, maxChunkSize: int): (chunks: seq<string>)
    ensures |chunks| >= 1
    ensures Join(chunks) == text
  {
    var gs := ChunkGroups(text, maxChunkSize);
    JoinOfJoins(gs);
    seq(|gs|, k requires 0 <= k < |gs| => Join(gs[k]))
  }

  /** The empty text gives one empty chunk. */
  lemma EmptyTextOneChunk(maxChunkSize: int)
    ensures ChunkText("", maxChunkSize) == [""]
  {
    var gs := ChunkGroups("", maxChunkSize);
    FlattenLength(gs);
    assert Flatten(gs) == gs[0] + Flatten(gs[1..]);
    assert gs[1..] == [];
  }
}
