// The greedy segmenter: dictionary chunks for bytes of multi-byte characters, spacing rules for the rest.

module Segmentation {
  import opened Words
  import opened Packing
  import opened Darts

  const SPACE: Byte := 32

  // ---------------------------------------------------------------- the chunk rule

  /**
   * The length of the first chunk of a text: all of it when it is a word or a prefix of one, else the longest
   * word it starts with, else all of it.
   */
  ghost function ChunkLen(d: map<Word, int>, text: Word): (n: nat)
    ensures n <= |text|
  {
    var lens := WordLengths(d, [], text, |text| + 1);
    if IsPath(d, text) || lens == [] then |text| else lens[|lens|-1]
  }

  /** The chunk rule read as a longest match. */
  lemma LongestMatch(d: map<Word, int>, text: Word)
    requires !IsPath(d, text)
    ensures
      var n := ChunkLen(d, text);
      && (forall m: nat :: n < m <= |text| ==> text[..m] !in d)
      && (text[..n] in d || (n == |text| && forall m: nat :: m <= |text| ==> text[..m] !in d))
  {
    var lens := WordLengths(d, [], text, |text| + 1);
    WordLengthsExact(d, [], text, |text| + 1);
    forall m: nat | m <= |text| ensures text[..m] in d <==> m in lens {
      assert [] + text[..m] == text[..m];
    }
    forall m: nat | m <= |text| && lens != [] && lens[|lens|-1] < m ensures text[..m] !in d {
      assert forall i :: 0 <= i < |lens| ==> lens[i] <= lens[|lens|-1];
      assert m !in lens;
    }
  }

  /** A chunk of a non-empty text is empty exactly when the empty word is the only word the text starts with. */
  lemma ChunkIsEmpty(d: map<Word, int>, text: Word)
    requires text != []
    ensures ChunkLen(d, text) == 0 <==>
              !IsPath(d, text) && [] in d && forall m: nat :: 1 <= m <= |text| ==> text[..m] !in d
  {
    if !IsPath(d, text) {
      LongestMatch(d, text);
      assert text[..0] == [];
    }
  }

  lemma ChunkIsNotEmpty(d: map<Word, int>, text: Word)
    requires text != [] && [] !in d
    ensures ChunkLen(d, text) > 0
  {
    ChunkIsEmpty(d, text);
  }

  /** Every cut makes progress. Without the empty word in the dictionary this always holds. */
  ghost predicate Cuttable(d: map<Word, int>, text: Word)
    decreases |text|
  {
    text == [] || (ChunkLen(d, text) > 0 && Cuttable(d, text[ChunkLen(d, text)..]))
  }

  lemma {:induction false} CuttableWithoutEmptyWord(d: map<Word, int>, text: Word)
    requires [] !in d
    ensures Cuttable(d, text)
    decreases |text|
  {
    if text != [] {
      ChunkIsNotEmpty(d, text);
      CuttableWithoutEmptyWord(d, text[ChunkLen(d, text)..]);
    }
  }

  // Which dictionaries cut every text over an alphabet: a condition on words and paths alone.

  predicate Over(text: Word, alphabet: set<Byte>) {
    forall x :: x in text ==> x in alphabet
  }

  ghost predicate CutsAll(d: map<Word, int>, alphabet: set<Byte>) {
    forall text :: Over(text, alphabet) ==> Cuttable(d, text)
  }

  /** Some word other than the empty one starts the text. */
  ghost predicate StartsWithWord(d: map<Word, int>, text: Word) {
    exists m: nat :: 1 <= m <= |text| && text[..m] in d
  }

  /** Every text that leads out of the trie starts with a word. */
  ghost predicate LeavesAtWords(d: map<Word, int>, alphabet: set<Byte>) {
    forall text :: text != [] && Over(text, alphabet) && !IsPath(d, text) ==> StartsWithWord(d, text)
  }

  lemma {:induction false} LeavingAtWordsCuts(d: map<Word, int>, alphabet: set<Byte>, text: Word)
    requires LeavesAtWords(d, alphabet) && Over(text, alphabet)
    ensures Cuttable(d, text)
    decreases |text|
  {
    if text != [] {
      ChunkIsEmpty(d, text);
      LeavingAtWordsCuts(d, alphabet, text[ChunkLen(d, text)..]);
    }
  }

  /**
   * The segmenter ends on every text over the alphabet exactly when the dictionary lacks the empty word, or no
   * text leads out of the trie before it has passed a word.
   */
  lemma CutsAllExactly(d: map<Word, int>, alphabet: set<Byte>)
    ensures CutsAll(d, alphabet) <==> [] !in d || LeavesAtWords(d, alphabet)
  {
    forall text | Over(text, alphabet) && ([] !in d || LeavesAtWords(d, alphabet)) ensures Cuttable(d, text) {
      if [] !in d {
        CuttableWithoutEmptyWord(d, text);
      } else {
        LeavingAtWordsCuts(d, alphabet, text);
      }
    }
    if [] in d && CutsAll(d, alphabet) {
      forall text | text != [] && Over(text, alphabet) && !IsPath(d, text) ensures StartsWithWord(d, text) {
        assert Cuttable(d, text);
        ChunkIsEmpty(d, text);
      }
    }
  }

  /** With nothing but the empty word, the very first cut makes no progress, and none ever does. */
  lemma EmptyWordAloneIsStuck(x: Byte, turns: nat)
    ensures !Cuttable(map[[] := 0], [x]) && CutAfter(map[[] := 0], [x], turns) == 0
  {
    ChunkIsEmpty(map[[] := 0], [x]);
    StuckNeverEnds(map[[] := 0], [x], turns);
  }

  /** How far `turns` turns of the cutting loop get. */
  ghost function CutAfter(d: map<Word, int>, text: Word, turns: nat): (n: nat)
    ensures n <= |text|
    decreases turns
  {
    if turns == 0 then 0
    else
      var n := ChunkLen(d, text);
      n + CutAfter(d, text[n..], turns - 1)
  }

  lemma {:induction false} CuttableEnds(d: map<Word, int>, text: Word, turns: nat)
    requires Cuttable(d, text) && turns >= |text|
    ensures CutAfter(d, text, turns) == |text|
    decreases |text|
  {
    if text != [] {
      CuttableEnds(d, text[ChunkLen(d, text)..], turns - 1);
    }
  }

  lemma {:induction false} StuckNeverEnds(d: map<Word, int>, text: Word, turns: nat)
    requires !Cuttable(d, text)
    ensures CutAfter(d, text, turns) < |text|
    decreases turns
  {
    if turns > 0 {
      var n := ChunkLen(d, text);
      assert n == 0 ==> text[n..] == text;
      StuckNeverEnds(d, text[n..], turns - 1);
    }
  }

  /** The cutting loop reaches the end of the text exactly when every cut makes progress. */
  lemma LoopEndsExactly(d: map<Word, int>, text: Word)
    ensures Cuttable(d, text) <==> exists turns: nat :: CutAfter(d, text, turns) == |text|
  {
    if Cuttable(d, text) {
      CuttableEnds(d, text, |text|);
    } else {
      forall turns: nat ensures CutAfter(d, text, turns) != |text| {
        StuckNeverEnds(d, text, turns);
      }
    }
  }

  /** The chunks of a text, each cut off the front by the chunk rule. */
  ghost function Chunks(d: map<Word, int>, text: Word): (chunks: seq<Word>)
    requires Cuttable(d, text)
    ensures forall i :: 0 <= i < |chunks| ==> chunks[i] != []
    decreases |text|
  {
    if text == [] then []
    else
      var n := ChunkLen(d, text);
      [text[..n]] + Chunks(d, text[n..])
  }

  /** Every chunk followed by a space. */
  function Spaced(chunks: seq<Word>): Word {
    if chunks == [] then [] else chunks[0] + [SPACE] + Spaced(chunks[1..])
  }

  function DropSpaces(w: Word): Word {
    if w == [] then []
    else (if w[0] == SPACE then [] else [w[0]]) + DropSpaces(w[1..])
  }

  lemma {:induction false} DropSpacesConcat(a: Word, b: Word)
    ensures DropSpaces(a + b) == DropSpaces(a) + DropSpaces(b)
  {
    if a == [] {
      assert a + b == b;
    } else {
      assert (a + b)[1..] == a[1..] + b;
      DropSpacesConcat(a[1..], b);
    }
  }

  lemma SpaceIsDropped()
    ensures DropSpaces([SPACE]) == []
  {
  }

  /** Cutting into chunks only adds spaces. */
  lemma {:induction false} ChunksConserve(d: map<Word, int>, text: Word)
    requires Cuttable(d, text)
    ensures DropSpaces(Spaced(Chunks(d, text))) == DropSpaces(text)
    decreases |text|
  {
    if text != [] {
      var n := ChunkLen(d, text);
      var rest := Chunks(d, text[n..]);
      assert Chunks(d, text)[1..] == rest;
      ChunksConserve(d, text[n..]);
      DropSpacesConcat(text[..n] + [SPACE], Spaced(rest));
      DropSpacesConcat(text[..n], [SPACE]);
      DropSpacesConcat(text[..n], text[n..]);
      assert text == text[..n] + text[n..];
    }
  }

  // ---------------------------------------------------------------- the reference segmentation by runs

  /** A byte of a single-byte character. */
  predicate IsSingle(x: Byte) {
    x < 128
  }

  /** 1 for letters, 2 for digits, 3 for joining punctuation, 0 for anything else. */
  function CharType(x: Byte): (t: nat) {
    if 97 <= x <= 122 || 65 <= x <= 90 then 1
    else if 48 <= x <= 57 then 2
    else if x in [95, 45, 32, 46, 64] then 3
    else 0
  }

  /** The end of the run of same-class bytes that starts at `i`. */
  function RunEnd(input: Word, i: nat): (j: nat)
    requires i < |input|
    ensures i < j <= |input|
    ensures forall k :: i <= k < j ==> IsSingle(input[k]) == IsSingle(input[i])
    ensures j < |input| ==> IsSingle(input[j]) != IsSingle(input[i])
    decreases |input| - i
  {
    if i + 1 < |input| && IsSingle(input[i+1]) == IsSingle(input[i]) then RunEnd(input, i + 1) else i + 1
  }

  /** How a single-byte character is printed at its place in the input. */
  function Printed(input: Word, i: nat): Word
    requires i < |input|
  {
    var c := input[i];
    if i == 0 then [c] + (if CharType(c) == 0 then [SPACE] else [])
    else if CharType(c) == 0 then [SPACE, c, SPACE]
    else if CharType(c) == 1 && CharType(input[i-1]) == 2 then [SPACE, c]
    else [c]
  }

  function PrintedRun(input: Word, i: nat, j: nat): Word
    requires i <= j <= |input|
  {
    if i == j then [] else PrintedRun(input, i, j - 1) + Printed(input, j - 1)
  }

  /** The output a run owes. */
  ghost function RunOutput(d: map<Word, int>, input: Word, i: nat, j: nat): Word
    requires i < j <= |input| && (IsSingle(input[i]) || Cuttable(d, input[i..j]))
  {
    if IsSingle(input[i]) then PrintedRun(input, i, j) + [SPACE] else Spaced(Chunks(d, input[i..j]))
  }

  /** From the start of a run on, every run of multi-byte characters can be cut. */
  ghost predicate Segmentable(d: map<Word, int>, input: Word, i: nat)
    requires i <= |input|
    decreases |input| - i
  {
    i == |input|
    || (&& (IsSingle(input[i]) || Cuttable(d, input[i..RunEnd(input, i)]))
        && Segmentable(d, input, RunEnd(input, i)))
  }

  lemma {:induction false} SegmentableWithoutEmptyWord(d: map<Word, int>, input: Word, i: nat)
    requires [] !in d && i <= |input|
    ensures Segmentable(d, input, i)
    decreases |input| - i
  {
    if i < |input| {
      CuttableWithoutEmptyWord(d, input[i..RunEnd(input, i)]);
      SegmentableWithoutEmptyWord(d, input, RunEnd(input, i));
    }
  }

  /** The bytes of multi-byte characters, the only ones that reach the dictionary. */
  const WIDE: set<Byte> := set x: Byte | 128 <= x < 256

  lemma {:induction false} SegmentableWhenCut(d: map<Word, int>, input: Word, i: nat)
    requires CutsAll(d, WIDE) && i <= |input|
    ensures Segmentable(d, input, i)
    decreases |input| - i
  {
    if i < |input| {
      var run := input[i..RunEnd(input, i)];
      assert !IsSingle(input[i]) ==> Over(run, WIDE);
      SegmentableWhenCut(d, input, RunEnd(input, i));
    }
  }

  /** A text of multi-byte characters is one run. */
  lemma WideTextIsOneRun(d: map<Word, int>, text: Word)
    requires Over(text, WIDE) && Segmentable(d, text, 0)
    ensures Cuttable(d, text)
  {
    if text != [] {
      assert forall k :: 0 <= k < |text| ==> text[k] in text;
      RunEndIs(text, 0, |text|);
      assert text[0..|text|] == text;
    }
  }

  ghost predicate SegmentsAll(d: map<Word, int>) {
    forall input :: Segmentable(d, input, 0)
  }

  /** The segmenter ends on every input exactly when its dictionary cuts every text of multi-byte characters. */
  lemma SegmentsAllExactly(d: map<Word, int>)
    ensures SegmentsAll(d) <==> [] !in d || LeavesAtWords(d, WIDE)
  {
    CutsAllExactly(d, WIDE);
    if CutsAll(d, WIDE) {
      forall input ensures Segmentable(d, input, 0) {
        SegmentableWhenCut(d, input, 0);
      }
    }
    if SegmentsAll(d) {
      forall text | Over(text, WIDE) ensures Cuttable(d, text) {
        WideTextIsOneRun(d, text);
      }
    }
  }

  /** The segmentation of the input from the start of a run on. */
  ghost function Segmented(d: map<Word, int>, input: Word, i: nat): Word
    requires i <= |input| && Segmentable(d, input, i)
    decreases |input| - i
  {
    if i == |input| then []
    else
      var j := RunEnd(input, i);
      RunOutput(d, input, i, j) + Segmented(d, input, j)
  }

  lemma RunEndIs(input: Word, i: nat, j: nat)
    requires i < j <= |input|
    requires forall k :: i <= k < j ==> IsSingle(input[k]) == IsSingle(input[i])
    requires j < |input| ==> IsSingle(input[j]) != IsSingle(input[i])
    ensures RunEnd(input, i) == j
  {
    var r := RunEnd(input, i);
    assert !(r < j) && !(j < r);
  }

  lemma {:induction false} PrintedConserves(input: Word, i: nat, j: nat)
    requires i <= j <= |input|
    ensures DropSpaces(PrintedRun(input, i, j)) == DropSpaces(input[i..j])
    decreases j
  {
    hide DropSpaces, Printed;
    if i == j {
      assert input[i..j] == PrintedRun(input, i, j);
    } else {
      PrintedConserves(input, i, j - 1);
      DropSpacesConcat(PrintedRun(input, i, j - 1), Printed(input, j - 1));
      DropSpacesConcat(input[i..j-1], [input[j-1]]);
      assert input[i..j] == input[i..j-1] + [input[j-1]];
      PrintedConservesOne(input, j - 1);
    }
  }

  lemma PrintedConservesOne(input: Word, i: nat)
    requires i < |input|
    ensures DropSpaces(Printed(input, i)) == DropSpaces([input[i]])
  {
    hide DropSpaces, CharType;
    var c := input[i];
    SpacesAround([c]);
    assert [SPACE] + [c] == [SPACE, c] && [c] + [SPACE] == [c, SPACE] && [SPACE, c] + [SPACE] == [SPACE, c, SPACE];
  }

  lemma SpacesAround(w: Word)
    ensures DropSpaces([SPACE] + w) == DropSpaces(w + [SPACE]) == DropSpaces([SPACE] + w + [SPACE]) == DropSpaces(w)
    ensures w + [] == w
  {
    hide DropSpaces;
    SpaceIsDropped();
    DropSpacesConcat([SPACE], w);
    DropSpacesConcat(w, [SPACE]);
    DropSpacesConcat([SPACE] + w, [SPACE]);
  }

  /** Segmentation conserves the text: the output without spaces is the input without spaces. */
  lemma {:induction false} SegmentedConserves(d: map<Word, int>, input: Word, i: nat)
    requires i <= |input| && Segmentable(d, input, i)
    ensures DropSpaces(Segmented(d, input, i)) == DropSpaces(input[i..])
    decreases |input| - i
  {
    hide DropSpaces, Printed, PrintedRun, Chunks, Spaced, CharType;
    if i == |input| {
      assert input[i..] == Segmented(d, input, i);
    } else {
      var j := RunEnd(input, i);
      SegmentedConserves(d, input, j);
      DropSpacesConcat(RunOutput(d, input, i, j), Segmented(d, input, j));
      DropSpacesConcat(input[i..j], input[j..]);
      assert input[i..] == input[i..j] + input[j..];
      if IsSingle(input[i]) {
        PrintedConserves(input, i, j);
        DropSpacesConcat(PrintedRun(input, i, j), [SPACE]);
        SpaceIsDropped();
      } else {
        ChunksConserve(d, input[i..j]);
      }
    }
  }

  // ---------------------------------------------------------------- what the output looks like
  //
  // Three laws that determine the segmentation of every input: how one more single-byte character is printed, what
  // a text of multi-byte characters gives, and how the two kinds of runs follow each other.

  predicate IsLetter(x: Byte) {
    'a' <= x as int as char <= 'z' || 'A' <= x as int as char <= 'Z'
  }

  predicate IsDigit(x: Byte) {
    '0' <= x as int as char <= '9'
  }

  /** Letters, digits and the five characters that join them are printed without spaces around them. */
  predicate IsPlain(x: Byte) {
    IsLetter(x) || IsDigit(x) || x as int as char in {' ', '-', '.', '@', '_'}
  }

  predicate AllSingle(w: Word) {
    forall k :: 0 <= k < |w| ==> w[k] < 128
  }

  predicate AllWide(w: Word) {
    forall k :: 0 <= k < |w| ==> w[k] >= 128
  }

  lemma SinglesArePrinted(d: map<Word, int>, w: Word)
    requires AllSingle(w) && w != []
    ensures Segmentable(d, w, 0) && Segmented(d, w, 0) == PrintedRun(w, 0, |w|) + [SPACE]
  {
    hide PrintedRun, Chunks, Cuttable;
    RunEndIs(w, 0, |w|);
    assert Segmentable(d, w, |w|);
    assert RunOutput(d, w, 0, |w|) + [] == RunOutput(d, w, 0, |w|);
  }

  lemma {:induction false} SamePrintedRun(w: Word, w': Word, j: nat)
    requires j <= |w| && j <= |w'| && w[..j] == w'[..j]
    ensures PrintedRun(w, 0, j) == PrintedRun(w', 0, j)
  {
    if j > 0 {
      assert w[..j-1] == w[..j][..j-1] == w'[..j][..j-1] == w'[..j-1];
      SharedAt(w, w', j, j - 1);
      if j > 1 {
        SharedAt(w, w', j, j - 2);
      }
      SamePrintedRun(w, w', j - 1);
    }
  }

  lemma OneByte(d: map<Word, int>, x: Byte)
    requires x < 128
    ensures Segmentable(d, [x], 0)
    ensures Segmented(d, [x], 0) == if IsPlain(x) then [x, 32] else [x, 32, 32]
  {
    hide Segmentable, Segmented;
    SinglesArePrinted(d, [x]);
    assert PrintedRun([x], 0, 1) == PrintedRun([x], 0, 0) + Printed([x], 0) == Printed([x], 0);
  }

  /**
   * One more single-byte character: a plain one replaces the final space and is followed by another, except that a
   * letter behind a digit keeps the space between the two; any other character stands between spaces.
   */
  lemma OneMoreByte(d: map<Word, int>, w: Word, x: Byte)
    requires AllSingle(w) && w != [] && x < 128
    ensures Segmentable(d, w, 0) && Segmentable(d, w + [x], 0)
    ensures
      var out := Segmented(d, w, 0);
      Segmented(d, w + [x], 0) ==
        if !IsPlain(x) then out + [x, 32, 32]
        else if IsLetter(x) && IsDigit(w[|w|-1]) then out + [x, 32]
        else out[..|out|-1] + [x, 32]
  {
    hide Segmentable, Segmented;
    var w' := w + [x];
    SinglesArePrinted(d, w);
    SinglesArePrinted(d, w');
    assert w'[..|w|] == w == w[..|w|];
    SamePrintedRun(w, w', |w|);
    var front := PrintedRun(w, 0, |w|);
    assert PrintedRun(w', 0, |w'|) == front + Printed(w', |w|);
    hide PrintedRun;
    assert w'[|w|] == x && w'[|w|-1] == w[|w|-1];
    assert (front + [SPACE])[..|front|] == front;
  }

  /** Letters alone are printed as they are, with one space behind them. */
  lemma {:induction false} LettersAlone(d: map<Word, int>, w: Word)
    requires w != [] && forall k :: 0 <= k < |w| ==> IsLetter(w[k])
    ensures Segmentable(d, w, 0) && Segmented(d, w, 0) == w + [32]
  {
    hide Segmentable, Segmented;
    if |w| == 1 {
      OneByte(d, w[0]);
      assert w == [w[0]];
    } else {
      var n := |w| - 1;
      LettersAlone(d, w[..n]);
      assert w == w[..n] + [w[n]];
      OneMoreByte(d, w[..n], w[n]);
    }
  }

  /** A text of multi-byte characters alone is cut by the dictionary. */
  lemma WideIsCut(d: map<Word, int>, w: Word)
    requires AllWide(w) && w != [] && Cuttable(d, w)
    ensures Segmentable(d, w, 0) && Segmented(d, w, 0) == Spaced(Chunks(d, w))
  {
    hide Chunks, Cuttable, Spaced;
    RunEndIs(w, 0, |w|);
    assert w[0..|w|] == w;
    assert Segmentable(d, w, |w|);
    assert RunOutput(d, w, 0, |w|) + [] == RunOutput(d, w, 0, |w|);
  }

  /** Every chunk is followed by one space. */
  lemma SpacedChunks(chunk: Word, chunks: seq<Word>)
    ensures Spaced([]) == [] && Spaced([chunk] + chunks) == chunk + [32] + Spaced(chunks)
  {
    assert ([chunk] + chunks)[1..] == chunks;
  }

  lemma RunEndInFront(u: Word, v: Word, i: nat)
    requires i < |u| && v != [] && IsSingle(u[|u|-1]) != IsSingle(v[0])
    ensures RunEnd(u + v, i) == RunEnd(u, i) && (u + v)[i..RunEnd(u, i)] == u[i..RunEnd(u, i)]
  {
    RunEndIs(u + v, i, RunEnd(u, i));
  }

  lemma {:induction false} PrintedInFront(u: Word, v: Word, i: nat, j: nat)
    requires i <= j <= |u|
    ensures PrintedRun(u + v, i, j) == PrintedRun(u, i, j)
  {
    if i < j {
      PrintedInFront(u, v, i, j - 1);
    }
  }

  /** The runs of the front come out as they do alone. */
  lemma {:induction false} FrontRuns(d: map<Word, int>, u: Word, v: Word, i: nat)
    requires i <= |u| && u != [] && v != [] && IsSingle(u[|u|-1]) != IsSingle(v[0])
    requires Segmentable(d, u, i) && Segmentable(d, u + v, |u|)
    ensures Segmentable(d, u + v, i) && Segmented(d, u + v, i) == Segmented(d, u, i) + Segmented(d, u + v, |u|)
    decreases |u| - i
  {
    hide PrintedRun, Printed, Chunks, Cuttable, Spaced;
    if i < |u| {
      var j := RunEnd(u, i);
      RunEndInFront(u, v, i);
      PrintedInFront(u, v, i, j);
      FrontRuns(d, u, v, j);
    }
  }

  lemma RunEndBehind(u: Word, v: Word, i: nat)
    requires i < |v|
    ensures RunEnd(u + v, |u| + i) == |u| + RunEnd(v, i)
    ensures (u + v)[|u|+i..|u|+RunEnd(v, i)] == v[i..RunEnd(v, i)]
  {
    RunEndIs(u + v, |u| + i, |u| + RunEnd(v, i));
  }

  /** The space that a character other than a plain one has in front of it, unless it starts the input. */
  function Lead(x: Byte): Word {
    if x < 128 && !IsPlain(x) then [32] else []
  }

  lemma PrintedOneBehind(u: Word, v: Word, k: nat)
    requires u != [] && k < |v| && (k == 0 ==> v[0] < 128 && u[|u|-1] >= 128)
    ensures Printed(u + v, |u| + k) == (if k == 0 then Lead(v[0]) else []) + Printed(v, k)
  {
    var w := u + v;
    assert w[|u|+k] == v[k] && w[|u|+k-1] == if k > 0 then v[k-1] else u[|u|-1];
  }

  lemma LastOfRun(w: Word, i: nat, j: nat)
    requires i < j <= |w|
    ensures PrintedRun(w, i, j) == if i == j - 1 then Printed(w, i) else PrintedRun(w, i, j - 1) + Printed(w, j - 1)
  {
    hide Printed;
  }

  lemma {:induction false} PrintedBehind(u: Word, v: Word, i: nat, j: nat)
    requires u != [] && i < j <= |v| && (i == 0 ==> v[0] < 128 && u[|u|-1] >= 128)
    ensures PrintedRun(u + v, |u| + i, |u| + j) == (if i == 0 then Lead(v[0]) else []) + PrintedRun(v, i, j)
  {
    hide Printed, Lead, PrintedRun;
    PrintedOneBehind(u, v, j - 1);
    LastOfRun(v, i, j);
    LastOfRun(u + v, |u| + i, |u| + j);
    if i < j - 1 {
      PrintedBehind(u, v, i, j - 1);
      var front, last := PrintedRun(v, i, j - 1), Printed(v, j - 1);
      assert i == 0 ==> Lead(v[0]) + front + last == Lead(v[0]) + (front + last);
    }
  }

  lemma RunOutputBehind(d: map<Word, int>, u: Word, v: Word, i: nat, j: nat)
    requires u != [] && i < j <= |v| && (IsSingle(v[i]) || Cuttable(d, v[i..j]))
    requires i == 0 ==> IsSingle(u[|u|-1]) != IsSingle(v[0])
    ensures (u + v)[|u|+i] == v[i] && (u + v)[|u|+i..|u|+j] == v[i..j]
    ensures RunOutput(d, u + v, |u| + i, |u| + j) == (if i == 0 then Lead(v[0]) else []) + RunOutput(d, v, i, j)
  {
    hide PrintedRun, Chunks, Cuttable, Spaced;
    assert (u + v)[|u|+i..|u|+j] == v[i..j];
    if v[i] < 128 {
      PrintedBehind(u, v, i, j);
    } else {
      assert i == 0 ==> Lead(v[0]) == [];
    }
  }

  lemma LastRun(d: map<Word, int>, w: Word)
    ensures Segmentable(d, w, |w|) && Segmented(d, w, |w|) == []
  {
  }

  lemma FirstRun(d: map<Word, int>, w: Word, i: nat)
    requires i < |w|
    ensures
      var j := RunEnd(w, i);
      && (Segmentable(d, w, i) <==> (IsSingle(w[i]) || Cuttable(d, w[i..j])) && Segmentable(d, w, j))
      && (Segmentable(d, w, i) ==> Segmented(d, w, i) == RunOutput(d, w, i, j) + Segmented(d, w, j))
  {
    hide RunOutput, Cuttable;
  }

  /** The runs behind another text come out as they do alone, but for a space in front. */
  lemma {:induction false} RunsBehind(d: map<Word, int>, u: Word, v: Word, i: nat)
    requires u != [] && i <= |v| && Segmentable(d, v, i)
    requires i == 0 && v != [] ==> IsSingle(u[|u|-1]) != IsSingle(v[0])
    ensures Segmentable(d, u + v, |u| + i)
    ensures Segmented(d, u + v, |u| + i) == (if i == 0 && v != [] then Lead(v[0]) else []) + Segmented(d, v, i)
    decreases |v| - i
  {
    hide Segmentable, Segmented, RunOutput, Cuttable, Lead, IsSingle;
    if i < |v| {
      var j := RunEnd(v, i);
      RunEndBehind(u, v, i);
      FirstRun(d, v, i);
      FirstRun(d, u + v, |u| + i);
      RunsBehind(d, u, v, j);
      RunOutputBehind(d, u, v, i, j);
    } else {
      LastRun(d, v);
      LastRun(d, u + v);
      assert |u + v| == |u| + |v|;
    }
  }

  /** A single-byte character next to a multi-byte one separates two texts that are segmented by themselves. */
  lemma RunsFollowEachOther(d: map<Word, int>, u: Word, v: Word)
    requires u != [] && v != [] && (u[|u|-1] < 128 <==> v[0] >= 128)
    requires Segmentable(d, u, 0) && Segmentable(d, v, 0)
    ensures Segmentable(d, u + v, 0)
    ensures Segmented(d, u + v, 0) == Segmented(d, u, 0) + Lead(v[0]) + Segmented(d, v, 0)
  {
    hide Segmented, Segmentable;
    RunsBehind(d, u, v, 0);
    FrontRuns(d, u, v, 0);
  }

  // ---------------------------------------------------------------- the program

  /** Reading the length of the last search result gives the chunk length. */
  lemma LastResultIsChunk(d: map<Word, int>, text: Word, num: nat, last: nat)
    requires text != [] && last <= |text|
    requires
      var lens := WordLengths(d, [], text, |text| + 1);
      if text !in d && IsPath(d, text) then num == |lens| + 1 && last == |text|
      else num == |lens| && (num > 0 ==> last == lens[num-1])
    ensures ChunkLen(d, text) == if num > 0 then last else |text|
  {
    var lens := WordLengths(d, [], text, |text| + 1);
    WordLengthsExact(d, [], text, |text| + 1);
    assert [] + text[..|text|] == text;
    if text in d {
      assert text <= text;
      assert |text| in lens;
    }
  }

  /** No search reports more results than the key has prefixes. */
  lemma ResultsFit(d: map<Word, int>, text: Word)
    ensures text !in d ==> |WordLengths(d, [], text, |text| + 1)| <= |text|
  {
    assert [] + text[..|text|] == text;
  }

  /** Looks up the prefixes of a text and returns the length of its first chunk. */
  method CheckDict(text: Word, da: DoubleArray, ghost d: map<Word, int>) returns (n: nat)
    requires da.Represents(d) && 0 !in text
    ensures n == ChunkLen(d, text)
  {
    hide WordLengths, ChunkLen, IsPath, Packed;
    if text == [] {
      return 0;
    }
    var result := new ResultPair[|text| + 1](_ => ResultPair(0, 0, 0));
    da.RootNode(d);
    ghost var lens := WordLengths(d, [], text, |text| + 1);
    ResultsFit(d, text);
    assert [] + text[..|text|] == text && text[..|text|] == text;
    var num := da.CommonPrefixSearch(text, result, result.Length, 0, 0, d, []);
    if num > 0 {
      if num == |lens| {
        assert da.IsHit(d, [], text, lens[num-1], result[..][num-1]);
      }
      n := result[num-1].length;
      LastResultIsChunk(d, text, num, n);
    } else {
      n := |text|;
      LastResultIsChunk(d, text, num, 0);
    }
  }

  /** Cuts a text into chunks, each followed by a space. */
  method FilterChunk(da: DoubleArray, sequence: Word, ghost d: map<Word, int>) returns (result: Word)
    requires da.Represents(d) && 0 !in sequence && Cuttable(d, sequence)
    ensures result == Spaced(Chunks(d, sequence))
  {
    hide Chunks, Spaced, ChunkLen;
    result := [];
    if sequence == [] {
      NoChunks(d);
      return;
    }
    var processed, rest := 0, sequence;
    while processed < |sequence|
      invariant processed <= |sequence| && rest == sequence[processed..] && 0 !in rest && Cuttable(d, rest)
      invariant result + Spaced(Chunks(d, rest)) == Spaced(Chunks(d, sequence))
    {
      ghost var was := rest;
      var index := CheckDict(rest, da, d);
      ghost var tail := Chunks(d, rest[index..]);
      FirstChunk(d, rest);
      assert sequence[processed..processed+index] == rest[..index];
      ghost var sofar := result;
      result := result + sequence[processed..processed+index];
      rest := sequence[processed+index..];
      result := result + [SPACE];
      assert sequence[processed+index..] == rest == was[index..];
      assert sofar + (was[..index] + [SPACE] + Spaced(tail)) == result + Spaced(tail);
      processed := processed + index;
    }
    NoChunks(d);
  }

  lemma NoChunks(d: map<Word, int>)
    ensures Spaced(Chunks(d, [])) == []
  {
  }

  lemma FirstChunk(d: map<Word, int>, text: Word)
    requires Cuttable(d, text) && text != []
    ensures
      var n := ChunkLen(d, text);
      n > 0 && Spaced(Chunks(d, text)) == text[..n] + [SPACE] + Spaced(Chunks(d, text[n..]))
  {
    var n := ChunkLen(d, text);
    assert Chunks(d, text)[1..] == Chunks(d, text[n..]);
  }

  /** Appends a single-byte character as its place in the input asks. */
  method PrintSingle(input: Word, i: nat, others: Word) returns (others': Word)
    requires i < |input|
    ensures others' == others + Printed(input, i)
  {
    var c := input[i];
    others' := others;
    if i == 0 {
      others' := others' + [c];
      if CharType(c) == 0 {
        others' := others' + [SPACE];
      }
    } else if CharType(c) == 0 {
      others' := others' + [SPACE];
      others' := others' + [c];
      others' := others' + [SPACE];
    } else if CharType(c) == 1 && CharType(input[i-1]) == 2 {
      others' := others' + [SPACE];
      others' := others' + [c];
    } else {
      others' := others' + [c];
    }
  }

  /** The bytes of the current run that are still pending. */
  predicate Pending(input: Word, start: nat, i: nat, chars: Word, others: Word)
    requires start <= i <= |input|
  {
    && (forall k :: start <= k < i ==> IsSingle(input[k]) == IsSingle(input[start]))
    && chars == (if start < i && !IsSingle(input[start]) then input[start..i] else [])
    && others == (if start < i && IsSingle(input[start]) then PrintedRun(input, start, i) else [])
  }

  lemma PendingIsShown(input: Word, start: nat, i: nat, chars: Word, others: Word)
    requires start < i <= |input| && Pending(input, start, i, chars, others)
    ensures others != [] <==> IsSingle(input[start])
    ensures chars != [] <==> !IsSingle(input[start])
  {
  }

  /** The flushed run can be cut, and so can what follows. */
  ghost predicate RunFits(d: map<Word, int>, input: Word, start: nat, i: nat, chars: Word)
    requires start < i <= |input|
  {
    (IsSingle(input[start]) || Cuttable(d, chars)) && Segmentable(d, input, i)
  }

  /** A run that ends at `i` is flushed. */
  lemma RunFlushed(d: map<Word, int>, input: Word, start: nat, i: nat, chars: Word, others: Word)
    requires start < i <= |input| && Pending(input, start, i, chars, others) && Segmentable(d, input, start)
    requires i < |input| ==> IsSingle(input[i]) != IsSingle(input[start])
    ensures RunFits(d, input, start, i, chars)
    ensures Segmented(d, input, start)
         == (if IsSingle(input[start]) then others + [SPACE] else Spaced(Chunks(d, chars))) + Segmented(d, input, i)
  {
    RunEndIs(input, start, i);
  }

  /** The next byte joins the pending run, or starts a new one once the old one is flushed. */
  lemma PendingNext(input: Word, start: nat, i: nat, chars: Word, others: Word)
    requires start <= i < |input| && Pending(input, start, i, chars, others)
    ensures (start == i || IsSingle(input[i]) == IsSingle(input[start])) ==>
              if IsSingle(input[i]) then Pending(input, start, i + 1, chars, others + Printed(input, i))
              else Pending(input, start, i + 1, chars + [input[i]], others)
    ensures if IsSingle(input[i]) then Pending(input, i, i + 1, [], [] + Printed(input, i))
            else Pending(input, i, i + 1, [] + [input[i]], [])
  {
    assert input[i..i+1] == [input[i]];
    assert input[start..i+1] == input[start..i] + [input[i]];
    assert PrintedRun(input, i, i) == [];
    assert PrintedRun(input, i, i + 1) == [] + Printed(input, i);
  }

  /** One pass over the input with two pending buffers, of which at most one is non-empty. */
  method SegmentEngine(da: DoubleArray, input: Word, ghost d: map<Word, int>) returns (final: Word)
    requires da.Represents(d) && Segmentable(d, input, 0)
    ensures final == Segmented(d, input, 0)
    ensures DropSpaces(final) == DropSpaces(input)
  {
    hide Segmented, Segmentable, Cuttable, Chunks, Spaced, Printed, Pending, DropSpaces;
    var chars, others: Word := [], [];
    final := [];
    var symbol := true;
    ghost var start := 0;
    var i := 0;
    NothingPending(input);
    while i < |input|
      invariant start <= i <= |input| && (start == i ==> i == 0 && chars == others == [])
      invariant Pending(input, start, i, chars, others) && 0 !in chars
      invariant Segmentable(d, input, start) && final + Segmented(d, input, start) == Segmented(d, input, 0)
    {
      ghost var turns := start < i && IsSingle(input[i]) != IsSingle(input[start]);
      if start < i {
        PendingIsShown(input, start, i, chars, others);
      }
      if turns {
        RunFlushed(d, input, start, i, chars, others);
      }
      PendingNext(input, start, i, chars, others);
      if IsSingle(input[i]) {
        others := PrintSingle(input, i, others);
        symbol := false;
      } else {
        chars := chars + [input[i]];
        symbol := true;
      }
      if !symbol && |chars| > 0 {
        var cut := FilterChunk(da, chars, d);
        final := final + cut;
        chars := [];
      }
      if symbol && |others| > 0 {
        final := final + others;
        final := final + [SPACE];
        others := [];
      }
      if turns {
        start := i;
      }
      i := i + 1;
    }
    if start < |input| {
      PendingIsShown(input, start, i, chars, others);
      RunFlushed(d, input, start, i, chars, others);
    }
    if |chars| > 0 {
      var cut := FilterChunk(da, chars, d);
      final := final + cut;
    }
    if |others| > 0 {
      final := final + others;
      final := final + [SPACE];
    }
    SegmentedEnds(d, input);
    SegmentedConserves(d, input, 0);
    assert input[0..] == input;
  }

  lemma NothingPending(input: Word)
    ensures Pending(input, 0, 0, [], [])
  {
  }

  lemma SegmentedEnds(d: map<Word, int>, input: Word)
    ensures Segmented(d, input, |input|) == []
  {
  }
}
