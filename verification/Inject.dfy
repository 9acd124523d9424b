/**
  Writing the generated tables into a user task's source file between its markers
  (generator/regs_generator.py:155-189).

  A file is a sequence of lines. Which lines are markers is decided by JSON in comments, which
  is left to a function here.
 */
module Inject {

  datatype Mark = Start | End | Other

  type Line = string

  /** What a line turns into; `replace` says whether a region is open before it. */
  function Emitted(mark: Line -> Mark, block: seq<Line>, line: Line, replace: bool): seq<Line> {
    match mark(line)
    case Start => [line]
    case End => if replace then block + [line] else [line]
    case Other => if replace then [] else [line]
  }

  /** Whether a region is open behind a line. */
  function Inside(mark: Line -> Mark, line: Line, replace: bool): bool {
    match mark(line)
    case Start => true
    case End => false
    case Other => replace
  }

  /** The file after the block was written into every region that has an end. */
  function Injected(mark: Line -> Mark, block: seq<Line>, file: seq<Line>, replace: bool): seq<Line> {
    if file == [] then []
    else Emitted(mark, block, file[0], replace) + Injected(mark, block, file[1..], Inside(mark, file[0], replace))
  }

  predicate Contains(mark: Line -> Mark, file: seq<Line>, m: Mark) {
    exists i :: 0 <= i < |file| && mark(file[i]) == m
  }

  /** A block without markers. */
  predicate Plain(mark: Line -> Mark, lines: seq<Line>) {
    forall i :: 0 <= i < |lines| ==> mark(lines[i]) == Other
  }

  /** `inject_user_task_regs_block`: one pass over the file; whether both markers were found. */
  method InjectBlock(mark: Line -> Mark, file: seq<Line>, block: seq<Line>) returns (output: seq<Line>, found: bool)
    ensures output == Injected(mark, block, file, false)
    ensures found <==> Contains(mark, file, Start) && Contains(mark, file, End)
  {
    var replace, foundStart, foundEnd := false, false, false;
    output := [];
    var n := 0;
    while n < |file|
      invariant n <= |file|
      invariant foundStart <==> Contains(mark, file[..n], Start)
      invariant foundEnd <==> Contains(mark, file[..n], End)
      invariant output + Injected(mark, block, file[n..], replace) == Injected(mark, block, file, false)
    {
      var line := file[n];
      ghost var before, piece := output, Emitted(mark, block, line, replace);
      ContainsNext(mark, file, n, Start);
      ContainsNext(mark, file, n, End);
      OutputGrows(mark, block, file, n, replace, before);
      var isStart, isEnd := mark(line) == Start, mark(line) == End;
      if isStart {
        foundStart, replace := true, true;
        output := output + [line];
      } else if isEnd {
        if replace {
          output := output + block;
        }
        replace, foundEnd := false, true;
        output := output + [line];
      } else if !replace {
        output := output + [line];
      }
      assert output == before + piece;
      n := n + 1;
    }
    assert file[..n] == file;
    found := foundStart && foundEnd;
  }

  lemma OutputGrows(mark: Line -> Mark, block: seq<Line>, file: seq<Line>, n: nat, replace: bool, output: seq<Line>)
    requires n < |file|
    ensures output + Injected(mark, block, file[n..], replace)
         == (output + Emitted(mark, block, file[n], replace))
            + Injected(mark, block, file[n + 1..], Inside(mark, file[n], replace))
  {
    assert file[n..][1..] == file[n + 1..];
  }

  lemma ContainsNext(mark: Line -> Mark, file: seq<Line>, n: nat, m: Mark)
    requires n < |file|
    ensures Contains(mark, file[..n + 1], m) <==> Contains(mark, file[..n], m) || mark(file[n]) == m
  {
    assert file[..n + 1] == file[..n] + [file[n]];
    if mark(file[n]) == m {
      assert mark(file[..n + 1][n]) == m;
    }
    if i :| 0 <= i < n && mark(file[..n][i]) == m {
      assert mark(file[..n + 1][i]) == m;
    }
  }

  // ------------------------------------------------------------------------------- laws

  /** Lines without markers are dropped inside a region and kept outside. */
  lemma {:induction false} PlainPrefix(mark: Line -> Mark, block: seq<Line>, lines: seq<Line>, rest: seq<Line>,
                                       replace: bool)
    requires Plain(mark, lines)
    ensures Injected(mark, block, lines + rest, replace)
         == (if replace then [] else lines) + Injected(mark, block, rest, replace)
  {
    if lines == [] {
      assert lines + rest == rest;
    } else {
      assert (lines + rest)[1..] == lines[1..] + rest;
      PlainPrefix(mark, block, lines[1..], rest, replace);
    }
  }

  lemma InjectedNext(mark: Line -> Mark, block: seq<Line>, line: Line, rest: seq<Line>, replace: bool)
    ensures Injected(mark, block, [line] + rest, replace)
         == Emitted(mark, block, line, replace) + Injected(mark, block, rest, Inside(mark, line, replace))
  {
    assert ([line] + rest)[1..] == rest;
  }

  /** Injecting the same block twice is injecting it once, for every file. */
  lemma {:induction false} InjectIdempotent(mark: Line -> Mark, block: seq<Line>, file: seq<Line>, replace: bool)
    requires Plain(mark, block)
    ensures Injected(mark, block, Injected(mark, block, file, replace), replace) == Injected(mark, block, file, replace)
  {
    if file != [] {
      var inside := Inside(mark, file[0], replace);
      InjectIdempotent(mark, block, file[1..], inside);
      EmittedStays(mark, block, file[0], Injected(mark, block, file[1..], inside), replace);
    }
  }

  /** What a line turns into is kept by a second pass. */
  lemma EmittedStays(mark: Line -> Mark, block: seq<Line>, line: Line, tail: seq<Line>, replace: bool)
    requires Plain(mark, block)
    ensures Injected(mark, block, Emitted(mark, block, line, replace) + tail, replace)
         == Emitted(mark, block, line, replace) + Injected(mark, block, tail, Inside(mark, line, replace))
  {
    InjectedNext(mark, block, line, tail, replace);
    if mark(line) == End && replace {
      assert block + [line] + tail == block + ([line] + tail);
      PlainPrefix(mark, block, block, [line] + tail, true);
    } else if mark(line) == Other && replace {
      assert [] + tail == tail;
    }
  }

  /** The markers and the lines outside regions. A region without an end reaches to the end. */
  function Outside(mark: Line -> Mark, file: seq<Line>, replace: bool): seq<Line> {
    if file == [] then []
    else
      var line, rest := file[0], file[1..];
      match mark(line)
      case Start => [line] + Outside(mark, rest, true)
      case End => [line] + Outside(mark, rest, false)
      case Other => if replace then Outside(mark, rest, true) else [line] + Outside(mark, rest, false)
  }

  lemma {:induction false} OutsideOfPlain(mark: Line -> Mark, lines: seq<Line>, rest: seq<Line>)
    requires Plain(mark, lines)
    ensures Outside(mark, lines + rest, true) == Outside(mark, rest, true)
  {
    if lines == [] {
      assert lines + rest == rest;
    } else {
      assert (lines + rest)[1..] == lines[1..] + rest;
      OutsideOfPlain(mark, lines[1..], rest);
    }
  }

  /** All lines outside regions keep their content and their order. */
  lemma {:induction false} InjectKeepsOutside(mark: Line -> Mark, block: seq<Line>, file: seq<Line>, replace: bool)
    requires Plain(mark, block)
    ensures Outside(mark, Injected(mark, block, file, replace), replace) == Outside(mark, file, replace)
  {
    if file != [] {
      var line, rest := file[0], file[1..];
      var inside := Inside(mark, line, replace);
      var tail := Injected(mark, block, rest, inside);
      InjectKeepsOutside(mark, block, rest, inside);
      assert ([line] + tail)[1..] == tail;
      if mark(line) == End && replace {
        assert block + [line] + tail == block + ([line] + tail);
        OutsideOfPlain(mark, block, [line] + tail);
      } else if mark(line) == Other && replace {
        assert [] + tail == tail;
      }
    }
  }

  /** The contents of all regions that have an end; `open` is the region being read, if any. */
  function Regions(mark: Line -> Mark, file: seq<Line>, replace: bool, open: seq<Line>): seq<seq<Line>>
    decreases |file|
  {
    if file == [] then []
    else
      var line, rest := file[0], file[1..];
      match mark(line)
      case Start => Regions(mark, rest, true, [])
      case End => (if replace then [open] else []) + Regions(mark, rest, false, [])
      case Other => Regions(mark, rest, replace, if replace then open + [line] else [])
  }

  lemma {:induction false} RegionReads(mark: Line -> Mark, lines: seq<Line>, rest: seq<Line>, open: seq<Line>)
    requires Plain(mark, lines)
    ensures Regions(mark, lines + rest, true, open) == Regions(mark, rest, true, open + lines)
    decreases |lines|
  {
    if lines == [] {
      assert lines + rest == rest && open + lines == open;
    } else {
      assert (lines + rest)[1..] == lines[1..] + rest && open + [lines[0]] + lines[1..] == open + lines;
      RegionReads(mark, lines[1..], rest, open + [lines[0]]);
    }
  }

  function Copies(block: seq<Line>, n: nat): (r: seq<seq<Line>>) {
    if n == 0 then [] else [block] + Copies(block, n - 1)
  }

  lemma RegionsOfEmitted(mark: Line -> Mark, block: seq<Line>, line: Line, tail: seq<Line>, replace: bool)
    requires Plain(mark, block)
    ensures Regions(mark, Emitted(mark, block, line, replace) + tail, replace, []) ==
            if mark(line) == End && replace then [block] + Regions(mark, tail, false, [])
            else Regions(mark, tail, Inside(mark, line, replace), [])
  {
    assert ([line] + tail)[1..] == tail;
    if mark(line) == End && replace {
      assert block + [line] + tail == block + ([line] + tail);
      RegionReads(mark, block, [line] + tail, []);
      assert [] + block == block;
    } else if mark(line) == Other && replace {
      assert [] + tail == tail;
    }
  }

  /** Afterwards every region holds the block and nothing else, and there are as many as before. */
  lemma {:induction false} RegionsHoldBlock(mark: Line -> Mark, block: seq<Line>, file: seq<Line>, replace: bool,
                                            open: seq<Line>)
    requires Plain(mark, block)
    ensures Regions(mark, Injected(mark, block, file, replace), replace, [])
         == Copies(block, |Regions(mark, file, replace, open)|)
    decreases |file|
  {
    if file != [] {
      var line, rest := file[0], file[1..];
      var inside := Inside(mark, line, replace);
      RegionsHoldBlock(mark, block, rest, inside, if mark(line) == Other && replace then open + [line] else []);
      RegionsOfEmitted(mark, block, line, Injected(mark, block, rest, inside), replace);
    }
  }

  /** A region without an end loses its lines, all of them. */
  lemma UnclosedRegionIsLost(mark: Line -> Mark, block: seq<Line>, start: Line, lines: seq<Line>, replace: bool)
    requires mark(start) == Start && Plain(mark, lines)
    ensures Injected(mark, block, [start] + lines, replace) == [start]
  {
    InjectedNext(mark, block, start, lines, replace);
    PlainPrefix(mark, block, lines, [], true);
    assert lines + [] == lines;
  }
}
