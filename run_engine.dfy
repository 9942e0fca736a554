/**
 * The engine runner: puzzle ids derived from hashes, the hash file that remembers every
 * puzzle written so far, the numbering of puzzle files, the preview rows of a solution,
 * and the loop that writes each newly generated puzzle once. The generator itself, the
 * clock, the random source and the file contents are not modelled: the loop is given
 * the sequence of generation attempts, each yielding a puzzle's hash or nothing.
 */
module RunEngine {
  import opened Wrappers
  import opened Text

  // ---------------------------------------------------------------------------
  // Puzzle ids

  const IdPrefix: string := "mcw_v1_"

  /** `puzzle_id_from_hash`: the prefix followed by the first 16 characters of the hash (all of a shorter one). */
  function PuzzleIdFromHash(hashHex: string): (id: string)
    ensures |IdPrefix| <= |id| && id[..|IdPrefix|] == IdPrefix
    ensures |id| - |IdPrefix| == (if |hashHex| < 16 then |hashHex| else 16)
    ensures id[|IdPrefix|..] == hashHex[..|id| - |IdPrefix|]
  {
    IdPrefix + hashHex[..if |hashHex| < 16 then |hashHex| else 16]
  }

  /** Two hashes of at least 16 characters get the same id exactly when their first 16 characters agree. */
  lemma PuzzleIdsAgree(a: string, b: string)
    requires |a| >= 16 && |b| >= 16
    ensures PuzzleIdFromHash(a) == PuzzleIdFromHash(b) <==> a[..16] == b[..16]
  {
    if PuzzleIdFromHash(a) == PuzzleIdFromHash(b) {
      assert PuzzleIdFromHash(a)[|IdPrefix|..] == PuzzleIdFromHash(b)[|IdPrefix|..];
    }
  }

  // ---------------------------------------------------------------------------
  // The hash file

  /** A hash as the hasher writes it: a non-empty string of lower-case hexadecimal digits. */
  predicate IsHashHex(h: string) {
    |h| > 0 && forall i :: 0 <= i < |h| ==> IsHexDigit(h[i])
  }

  predicate IsHexDigit(c: char) {
    '0' <= c <= '9' || 'a' <= c <= 'f'
  }

  /** `load_existing_hashes`: the stripped non-empty lines of the file, none when it does not exist. */
  function LoadExistingHashes(text: Option<string>): (hashes: set<string>)
    ensures forall h :: h in hashes ==> h != ""
    ensures text.None? ==> hashes == {}
  {
    match text
    case None => {}
    case Some(t) => set line | line in SplitLines(t) && StripSpace(line) != "" :: StripSpace(line)
  }

  /** `append_hash`: the file text after the hash is written on a line of its own (a missing file is empty). */
  function AppendHash(text: string, hashHex: string): string {
    text + hashHex + "\n"
  }

  /** Writing one more line after a run of lines gives the text of the longer run. */
  lemma {:induction false} LinesTextSnoc(lines: seq<string>, line: string)
    ensures LinesText(lines + [line]) == LinesText(lines) + line + "\n"
  {
    if lines != [] {
      var longer := lines + [line];
      LinesTextCons(longer);
      assert longer[1..] == lines[1..] + [line];
      LinesTextSnoc(lines[1..], line);
      LinesTextCons(lines);
    }
  }

  /** Appending each hash in turn writes the text of all of them. */
  lemma {:induction false} LinesTextAppend(a: seq<string>, b: seq<string>)
    ensures LinesText(a + b) == LinesText(a) + LinesText(b)
    decreases |b|
  {
    if b == [] {
      assert a + b == a;
    } else {
      var init, last := b[..|b| - 1], b[|b| - 1];
      assert a + b == (a + init) + [last];
      assert b == init + [last];
      LinesTextSnoc(a + init, last);
      LinesTextSnoc(init, last);
      LinesTextAppend(a, init);
    }
  }

  /** A hash file written by appending hashes reads back as exactly those hashes. */
  lemma HashFileReadsBack(hashes: seq<string>)
    requires forall k :: 0 <= k < |hashes| ==> IsHashHex(hashes[k])
    ensures LoadExistingHashes(Some(LinesText(hashes))) == set h | h in hashes
  {
    forall k | 0 <= k < |hashes| ensures NoLineBreak(hashes[k]) && StripSpace(hashes[k]) == hashes[k] {
      HashHexPlain(hashes[k]);
    }
    var text := LinesText(hashes);
    SplitLinesText(hashes);
    assert SplitLines(text) == hashes;
    StrippedHashes(hashes);
  }

  /** Stripping the non-empty lines of plain hashes leaves the hashes. */
  lemma StrippedHashes(hashes: seq<string>)
    requires forall k :: 0 <= k < |hashes| ==> StripSpace(hashes[k]) == hashes[k] && hashes[k] != ""
    ensures (set line | line in hashes && StripSpace(line) != "" :: StripSpace(line)) == set h | h in hashes
  {
  }

  /** A hash has no line break and no surrounding whitespace. */
  lemma HashHexPlain(h: string)
    requires IsHashHex(h)
    ensures NoLineBreak(h) && StripSpace(h) == h
  {
    assert IsHexDigit(h[0]) && IsHexDigit(h[|h| - 1]);
    StripIdentity(h, Whitespace);
    forall i | 0 <= i < |h| ensures !IsLineBreak(h[i]) {
      assert IsHexDigit(h[i]);
    }
  }

  // ---------------------------------------------------------------------------
  // Numbering the puzzle files

  /** The file names `glob("puzzle_*.json")` matches. */
  predicate MatchesGlob(name: string) {
    |name| >= 12 && name[..7] == "puzzle_" && name[|name| - 5..] == ".json"
  }

  /** Python's `int(s)` on ASCII text: optional surrounding whitespace, an optional sign, then digits. */
  function ParseInt(s: string): Option<int> {
    var t := StripSpace(s);
    if t != [] && (t[0] == '-' || t[0] == '+') then
      match ParseDigits(t[1..])
      case Some(v) => Some(if t[0] == '-' then -(v as int) else v as int)
      case None => None
    else
      match ParseDigits(t)
      case Some(v) => Some(v)
      case None => None
  }

  /**
   * The number a puzzle file contributes to `next_index`: the file must match the glob,
   * its stem must split at '_' into exactly two parts, and the second must parse.
   */
  function IndexOfName(name: string): Option<int> {
    if !MatchesGlob(name) then None
    else
      var parts := Split(name[..|name| - 5], '_');
      if |parts| != 2 then None else ParseInt(parts[1])
  }

  /**
   * The running `max_index` of `next_index` over the indices the names yield, in order:
   * 0 to start with, raised to each index present. It bounds every index and is 0 or one
   * of them.
   */
  function MaxOf(indices: seq<Option<int>>): (m: nat)
    ensures forall k :: 0 <= k < |indices| && indices[k].Some? ==> indices[k].value <= m
    ensures m == 0 || exists k :: 0 <= k < |indices| && indices[k] == Some(m)
  {
    if indices == [] then 0
    else
      var m, index := MaxOf(indices[..|indices| - 1]), indices[|indices| - 1];
      if index.Some? && index.value > m then index.value else m
  }

  /** The index each directory name yields, if any. */
  function Indices(names: seq<string>): (r: seq<Option<int>>)
    ensures |r| == |names| && forall k :: 0 <= k < |names| ==> r[k] == IndexOfName(names[k])
  {
    seq(|names|, k requires 0 <= k < |names| => IndexOfName(names[k]))
  }

  /** The largest index among the names, or 0. */
  function MaxIndex(names: seq<string>): nat {
    MaxOf(Indices(names))
  }

  /** The largest index bounds every index the names yield and is 0 or one of them. */
  lemma MaxIndexBounds(names: seq<string>)
    ensures forall k :: 0 <= k < |names| && IndexOfName(names[k]).Some? ==> IndexOfName(names[k]).value <= MaxIndex(names)
    ensures MaxIndex(names) == 0 || exists k :: 0 <= k < |names| && IndexOfName(names[k]) == Some(MaxIndex(names))
  {
    var indices := Indices(names);
    if MaxIndex(names) != 0 {
      var k :| 0 <= k < |indices| && indices[k] == Some(MaxIndex(names));
      assert IndexOfName(names[k]) == indices[k];
    }
  }

  /**
   * `next_index`: one more than the largest index among the directory's file names, and
   * at least 1; names that do not yield an index are ignored.
   */
  method NextIndex(names: seq<string>) returns (next: int)
    ensures next == MaxIndex(names) + 1
    ensures next >= 1
    ensures forall k :: 0 <= k < |names| && IndexOfName(names[k]).Some? ==> IndexOfName(names[k]).value < next
    ensures next == 1 || exists k :: 0 <= k < |names| && IndexOfName(names[k]) == Some(next - 1)
  {
    ghost var indices := Indices(names);
    var maxIndex := 0;
    for k := 0 to |names|
      invariant maxIndex == MaxOf(indices[..k])
    {
      assert indices[..k + 1][..k] == indices[..k];
      var index := IndexOfName(names[k]);
      if index.None? {
        continue;
      }
      if index.value > maxIndex {
        maxIndex := index.value;
      }
    }
    assert indices[..|names|] == indices;
    next := maxIndex + 1;
    MaxIndexBounds(names);
  }

  /** A run of `n` zeros. */
  function Zeros(n: nat): (z: string)
    ensures |z| == n && forall i :: 0 <= i < n ==> z[i] == '0'
  {
    if n == 0 then "" else Zeros(n - 1) + "0"
  }

  /** `f"{index:06d}"` for a non-negative index: its numeral, zero-padded to six digits. */
  function Padded(index: nat): (s: string)
    ensures |s| >= 6 && AllDigits(s)
  {
    var digits := NatToDecimal(index);
    (if |digits| < 6 then Zeros(6 - |digits|) else "") + digits
  }

  /** The name the runner gives the puzzle it writes with this index. */
  function PuzzleFileName(index: nat): string {
    "puzzle_" + Padded(index) + ".json"
  }

  lemma {:induction false} ZerosParse(n: nat)
    requires n >= 1
    ensures ParseDigits(Zeros(n)) == Some(0)
  {
    if n > 1 {
      assert Zeros(n)[..n - 1] == Zeros(n - 1);
      ZerosParse(n - 1);
    }
  }

  /** Leading zeros do not change the value of a numeral. */
  lemma {:induction false} ParseDigitsPadded(n: nat, digits: string)
    requires |digits| >= 1 && AllDigits(digits)
    ensures ParseDigits(Zeros(n) + digits) == ParseDigits(digits)
    decreases |digits|
  {
    var s := Zeros(n) + digits;
    if n > 0 {
      if |digits| == 1 {
        assert s[..|s| - 1] == Zeros(n);
        ZerosParse(n);
      } else {
        assert s[..|s| - 1] == Zeros(n) + digits[..|digits| - 1];
        ParseDigitsPadded(n, digits[..|digits| - 1]);
      }
    } else {
      assert s == digits;
    }
  }

  /** Different indices give different puzzle file names. */
  lemma PuzzleFileNameInjective(i: nat, j: nat)
    requires i != j
    ensures PuzzleFileName(i) != PuzzleFileName(j)
  {
    PuzzleFileNameIndexed(i);
    PuzzleFileNameIndexed(j);
  }

  /** Files numbered on from one index have pairwise different names. */
  lemma NumberedFilesDistinct(files: seq<string>, start: nat)
    requires forall i :: 0 <= i < |files| ==> files[i] == PuzzleFileName(start + i)
    ensures forall i, j :: 0 <= i < j < |files| ==> files[i] != files[j]
  {
    forall i, j | 0 <= i < j < |files|
      ensures files[i] != files[j]
    {
      PuzzleFileNameInjective(start + i, start + j);
    }
  }

  /** Files numbered from above every index the names yield are none of those names. */
  lemma NumberedFilesFresh(files: seq<string>, start: nat, names: seq<string>)
    requires forall i :: 0 <= i < |files| ==> files[i] == PuzzleFileName(start + i)
    requires forall k :: 0 <= k < |names| && IndexOfName(names[k]).Some? ==> IndexOfName(names[k]).value < start
    ensures forall i, k :: 0 <= i < |files| && 0 <= k < |names| && IndexOfName(names[k]).Some? ==> files[i] != names[k]
  {
    forall i, k | 0 <= i < |files| && 0 <= k < |names| && IndexOfName(names[k]).Some?
      ensures files[i] != names[k]
    {
      PuzzleFileNameIndexed(start + i);
    }
  }

  /** The index of a written puzzle file reads back from its name. */
  lemma PuzzleFileNameIndexed(index: nat)
    ensures IndexOfName(PuzzleFileName(index)) == Some(index)
  {
    var name := PuzzleFileName(index);
    var padded := Padded(index);
    assert name[..7] == "puzzle_" && name[|name| - 5..] == ".json";
    assert name[..|name| - 5] == "puzzle_" + padded;
    StemSplits(padded);
    PaddedParses(index);
  }

  /** The stem of a written puzzle file splits into "puzzle" and its padded number. */
  lemma StemSplits(padded: string)
    requires AllDigits(padded)
    ensures Split("puzzle_" + padded, '_') == ["puzzle", padded]
  {
    assert "puzzle_" + padded == Join(['_'], ["puzzle", padded]);
    forall i | 0 <= i < |padded| ensures padded[i] != '_' {
      assert IsDigit(padded[i]);
    }
    SplitJoin(["puzzle", padded], '_');
  }

  /** The padded number parses back to the index. */
  lemma PaddedParses(index: nat)
    ensures ParseInt(Padded(index)) == Some(index)
  {
    PaddedDigits(index);
    ParseIntDigits(Padded(index));
  }

  /** The padded numeral's digits have the index's value. */
  lemma PaddedDigits(index: nat)
    ensures ParseDigits(Padded(index)) == Some(index)
  {
    var digits := NatToDecimal(index);
    ParseNatToDecimal(index);
    if |digits| < 6 {
      ParseDigitsPadded(6 - |digits|, digits);
    } else {
      assert Padded(index) == digits;
    }
  }

  /** `int` of a plain string of digits is the digits' value. */
  lemma ParseIntDigits(t: string)
    requires |t| >= 1 && AllDigits(t)
    ensures ParseInt(t) == ParseDigits(t)
  {
    assert IsDigit(t[0]) && IsDigit(t[|t| - 1]);
    StripIdentity(t, Whitespace);
    assert StripSpace(t) == t && t[0] != '-' && t[0] != '+';
  }

  // ---------------------------------------------------------------------------
  // Grid preview

  /** What a preview shows for one solution cell: '-' for a block, the letter otherwise. */
  function CellPreview(cell: Option<string>): string {
    if cell.None? then "-" else cell.value
  }

  /** One preview row: the cells' previews joined with no separator. */
  function RowPreview(row: seq<Option<string>>): string {
    Concat(seq(|row|, j requires 0 <= j < |row| => CellPreview(row[j])))
  }

  /** `grid_preview`: one preview row per solution row. */
  function GridPreview(grid: seq<seq<Option<string>>>): (rows: seq<string>)
    ensures |rows| == |grid|
  {
    seq(|grid|, i requires 0 <= i < |grid| => RowPreview(grid[i]))
  }

  /**
   * When every letter is a single character, each preview row has one character per
   * cell: '-' for a block and the letter for a letter cell.
   */
  lemma GridPreviewShows(grid: seq<seq<Option<string>>>, i: nat, j: nat)
    requires forall r, c :: 0 <= r < |grid| && 0 <= c < |grid[r]| && grid[r][c].Some? ==> |grid[r][c].value| == 1
    requires i < |grid| && j < |grid[i]|
    ensures |GridPreview(grid)[i]| == |grid[i]|
    ensures GridPreview(grid)[i][j] == if grid[i][j].None? then '-' else grid[i][j].value[0]
  {
    var row := grid[i];
    var cells := seq(|row|, c requires 0 <= c < |row| => CellPreview(row[c]));
    assert forall c :: 0 <= c < |cells| ==> |cells[c]| == 1;
    ConcatSingles(cells, j);
  }

  // ---------------------------------------------------------------------------
  // The generation loop

  /**
   * The hashes the loop writes, given the attempts still to come, the hashes known so
   * far and the count written so far: an attempt without a puzzle or with a known hash
   * is skipped; a new one is written, and the loop stops once `max` (when non-zero) is
   * reached.
   */
  function Outcome(attempts: seq<Option<string>>, known: set<string>, generated: nat, max: int): seq<string>
    decreases |attempts|
  {
    if attempts == [] then []
    else if attempts[0].None? || attempts[0].value in known then Outcome(attempts[1..], known, generated, max)
    else
      var h := attempts[0].value;
      [h] + (if max != 0 && generated + 1 >= max then [] else Outcome(attempts[1..], known + {h}, generated + 1, max))
  }

  /** Nothing known is written again, and nothing is written twice. */
  lemma {:induction false} OutcomeFresh(attempts: seq<Option<string>>, known: set<string>, generated: nat, max: int)
    ensures forall k :: 0 <= k < |Outcome(attempts, known, generated, max)| ==> Outcome(attempts, known, generated, max)[k] !in known
    ensures forall j, k :: 0 <= j < k < |Outcome(attempts, known, generated, max)| ==>
      Outcome(attempts, known, generated, max)[j] != Outcome(attempts, known, generated, max)[k]
    decreases |attempts|
  {
    if attempts != [] {
      if attempts[0].None? || attempts[0].value in known {
        OutcomeFresh(attempts[1..], known, generated, max);
      } else {
        var h := attempts[0].value;
        if !(max != 0 && generated + 1 >= max) {
          OutcomeFresh(attempts[1..], known + {h}, generated + 1, max);
        }
      }
    }
  }

  /** With a positive `max`, the count never passes it. */
  lemma {:induction false} OutcomeBounded(attempts: seq<Option<string>>, known: set<string>, generated: nat, max: int)
    requires max > 0 && generated < max
    ensures generated + |Outcome(attempts, known, generated, max)| <= max
    decreases |attempts|
  {
    if attempts != [] {
      if attempts[0].None? || attempts[0].value in known {
        OutcomeBounded(attempts[1..], known, generated, max);
      } else if generated + 1 < max {
        OutcomeBounded(attempts[1..], known + {attempts[0].value}, generated + 1, max);
      }
    }
  }

  /** Without a limit, a hash is written exactly when some attempt yields it and it was not known before. */
  lemma {:induction false} OutcomeUnlimited(attempts: seq<Option<string>>, known: set<string>, generated: nat, h: string)
    ensures h in Outcome(attempts, known, generated, 0) <==> Some(h) in attempts && h !in known
    decreases |attempts|
  {
    if attempts != [] {
      var rest := attempts[1..];
      assert attempts == [attempts[0]] + rest;
      if attempts[0].None? || attempts[0].value in known {
        OutcomeUnlimited(rest, known, generated, h);
      } else {
        OutcomeUnlimited(rest, known + {attempts[0].value}, generated + 1, h);
      }
    }
  }

  /** One attempt of the loop. */
  lemma OutcomeStep(attempts: seq<Option<string>>, k: nat, known: set<string>, generated: nat, max: int)
    requires k < |attempts|
    ensures attempts[k].None? || attempts[k].value in known ==>
      Outcome(attempts[k..], known, generated, max) == Outcome(attempts[k + 1..], known, generated, max)
    ensures attempts[k].Some? && attempts[k].value !in known && max != 0 && generated + 1 >= max ==>
      Outcome(attempts[k..], known, generated, max) == [attempts[k].value]
    ensures attempts[k].Some? && attempts[k].value !in known && !(max != 0 && generated + 1 >= max) ==>
      Outcome(attempts[k..], known, generated, max) ==
      [attempts[k].value] + Outcome(attempts[k + 1..], known + {attempts[k].value}, generated + 1, max)
  {
    assert attempts[k..][1..] == attempts[k + 1..];
  }

  /**
   * The loop's record of what it wrote: one file name per written hash, numbered from
   * `startIndex`; the known hashes; the hash file text; the next index.
   */
  ghost predicate Tracks(written: seq<string>, files: seq<string>, known: set<string>, text: string, index: nat,
                         existing: set<string>, hashText: string, startIndex: nat) {
    && |files| == |written| && (forall i :: 0 <= i < |files| ==> files[i] == PuzzleFileName(startIndex + i))
    && known == existing + Seen(written)
    && text == hashText + LinesText(written)
    && index == startIndex + |written|
  }

  /** The hashes of a run of writes, as a set. */
  function Seen(written: seq<string>): (r: set<string>)
    ensures forall h :: h in r <==> h in written
  {
    if written == [] then {} else Seen(written[..|written| - 1]) + {written[|written| - 1]}
  }

  /** Writing one more puzzle keeps the record. */
  lemma TracksWrite(written: seq<string>, files: seq<string>, known: set<string>, text: string, index: nat,
                    existing: set<string>, hashText: string, startIndex: nat, hashHex: string)
    requires Tracks(written, files, known, text, index, existing, hashText, startIndex)
    ensures Tracks(written + [hashHex], files + [PuzzleFileName(index)], known + {hashHex}, AppendHash(text, hashHex),
                   index + 1, existing, hashText, startIndex)
  {
    LinesTextSnoc(written, hashHex);
    assert (written + [hashHex])[..|written|] == written;
  }

  /** Writing a new puzzle: its file, its line in the hash file, its hash among the known ones, the next index. */
  method WritePuzzle(written: seq<string>, files: seq<string>, known: set<string>, text: string, index: nat, hashHex: string,
                     ghost existing: set<string>, ghost hashText: string, ghost startIndex: nat)
    returns (written': seq<string>, files': seq<string>, known': set<string>, text': string, index': nat)
    requires Tracks(written, files, known, text, index, existing, hashText, startIndex)
    ensures Tracks(written', files', known', text', index', existing, hashText, startIndex)
    ensures written' == written + [hashHex] && known' == known + {hashHex}
  {
    TracksWrite(written, files, known, text, index, existing, hashText, startIndex, hashHex);
    files' := files + [PuzzleFileName(index)];
    text' := AppendHash(text, hashHex);
    known' := known + {hashHex};
    written' := written + [hashHex];
    index' := index + 1;
  }

  lemma ConcatAssoc(a: seq<string>, b: seq<string>, c: seq<string>)
    ensures a + (b + c) == (a + b) + c
  {
  }

  /**
   * The loop of `main` from its first attempt: the hashes written, the file names used,
   * the known hashes and the hash file text afterwards, and the next index.
   */
  method GenerationLoop(attempts: seq<Option<string>>, existing: set<string>, hashText: string,
                        startIndex: nat, max: int)
    returns (written: seq<string>, files: seq<string>, known: set<string>, newHashText: string, index: nat)
    ensures written == Outcome(attempts, existing, 0, max)
    ensures |files| == |written| && forall i :: 0 <= i < |files| ==> files[i] == PuzzleFileName(startIndex + i)
    ensures known == existing + Seen(written)
    ensures newHashText == hashText + LinesText(written)
    ensures index == startIndex + |written|
  {
    written, files, known, newHashText, index := [], [], existing, hashText, startIndex;
    var generated: nat := 0;
    var k := 0;
    while k < |attempts|
      invariant 0 <= k <= |attempts|
      invariant Outcome(attempts, existing, 0, max) == written + Outcome(attempts[k..], known, generated, max)
      invariant generated == |written|
      invariant Tracks(written, files, known, newHashText, index, existing, hashText, startIndex)
    {
      OutcomeStep(attempts, k, known, generated, max);
      var puzzle := attempts[k];
      k := k + 1;
      if puzzle.None? {
        continue;
      }
      var hashHex := puzzle.value;
      if hashHex in known {
        continue;
      }
      ghost var before, rest := written, Outcome(attempts[k..], known + {hashHex}, generated + 1, max);
      written, files, known, newHashText, index :=
        WritePuzzle(written, files, known, newHashText, index, hashHex, existing, hashText, startIndex);
      generated := generated + 1;
      if max != 0 && generated >= max {
        return;
      }
      ConcatAssoc(before, [hashHex], rest);
    }
    assert attempts[k..] == [];
  }

  /**
   * `main` after the word lists are loaded: the hashes known from the hash file, the
   * first free index from the directory's names, then the loop. The files written are
   * numbered on from one above the largest index already there, so they are distinct and
   * none is overwritten, and no written hash was known before.
   */
  method Run(names: seq<string>, hashText: Option<string>, attempts: seq<Option<string>>, max: int)
    returns (written: seq<string>, files: seq<string>, known: set<string>, newHashText: string)
    ensures written == Outcome(attempts, LoadExistingHashes(hashText), 0, max)
    ensures forall h :: h in written ==> h !in LoadExistingHashes(hashText)
    ensures known == LoadExistingHashes(hashText) + Seen(written)
    ensures |files| == |written|
    ensures forall i :: 0 <= i < |files| ==> files[i] == PuzzleFileName(MaxIndex(names) + 1 + i)
    ensures forall i, j :: 0 <= i < j < |files| ==> files[i] != files[j]
    ensures forall i, k :: 0 <= i < |files| && 0 <= k < |names| && IndexOfName(names[k]).Some? ==> files[i] != names[k]
    ensures newHashText == (if hashText.Some? then hashText.value else "") + LinesText(written)
  {
    var existing := LoadExistingHashes(hashText);
    var start := NextIndex(names);
    var index;
    written, files, known, newHashText, index := GenerationLoop(attempts, existing, if hashText.Some? then hashText.value else "", start, max);
    OutcomeFresh(attempts, existing, 0, max);
    NumberedFilesFresh(files, start, names);
    NumberedFilesDistinct(files, start);
  }

  /**
   * A hash file that held hashes before a run, with the run's hashes appended, reads
   * back as the old hashes and the new ones: the next run knows every puzzle written.
   */
  lemma AppendedHashFileReadsBack(before: seq<string>, written: seq<string>)
    requires forall k :: 0 <= k < |before| ==> IsHashHex(before[k])
    requires forall k :: 0 <= k < |written| ==> IsHashHex(written[k])
    ensures LoadExistingHashes(Some(LinesText(before) + LinesText(written))) == (set h | h in before) + Seen(written)
  {
    LinesTextAppend(before, written);
    var all := before + written;
    forall k | 0 <= k < |all| ensures IsHashHex(all[k]) {
      if k < |before| {
        assert all[k] == before[k];
      } else {
        assert all[k] == written[k - |before|];
      }
    }
    HashFileReadsBack(all);
    ElementsAppend(before, written);
  }

  /** The hashes of two runs of writes together are those of the first and those of the second. */
  lemma ElementsAppend(before: seq<string>, written: seq<string>)
    ensures (set h | h in before + written) == (set h | h in before) + Seen(written)
  {
  }
}
