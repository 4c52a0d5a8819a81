/** FolderNameHelper.LimitPath: shortens a Windows path to fit a character budget by
    replacing a contiguous run of interior `\`-separated segments with one ellipsis. */
module FolderNameHelper {
  import opened Strings

  const Backslash: char := '\\'
  /** The single character U+2026 "…" that stands for the elided segments. */
  const Ellipsis: string := "\U{2026}"

  /** `r` is `parts` joined with `\`, with segments a..b (inclusive, all interior and never
      the first two or the last) replaced by the ellipsis. */
  predicate ElidedAt(parts: seq<string>, a: int, b: int, r: string)
  {
    2 <= a <= b <= |parts| - 2 &&
    r == Join(parts[..a] + [Ellipsis] + parts[b + 1..], Backslash)
  }

  /** A shortened path is the original path with one piece cut out of its middle and
      replaced by the ellipsis: the piece is segments a..b with the separators between them. */
  lemma {:induction false} ElidedIsReplacement(folder: string, a: int, b: int, r: string)
    requires ElidedAt(Split(folder, Backslash), a, b, r)
    ensures var parts := Split(folder, Backslash);
            var prefix := Join(parts[..a], Backslash) + [Backslash];
            var suffix := [Backslash] + Join(parts[b + 1..], Backslash);
            folder == prefix + Join(parts[a..b + 1], Backslash) + suffix &&
            r == prefix + Ellipsis + suffix
  {
    var parts := Split(folder, Backslash);
    JoinSplit(folder, Backslash);
    JoinThree(parts, a, b);
    Assemble(parts, a, b, Join(parts[..a], Backslash) + [Backslash], [Backslash] + Join(parts[b + 1..], Backslash));
  }

  /** Joining in three pieces: before a, a..b, after b. */
  lemma JoinThree(parts: seq<string>, a: int, b: int)
    requires 2 <= a <= b <= |parts| - 2
    ensures Join(parts, Backslash) ==
            (Join(parts[..a], Backslash) + [Backslash]) + Join(parts[a..b + 1], Backslash) +
            ([Backslash] + Join(parts[b + 1..], Backslash))
  {
    CutInThree(parts, a, b + 1);
    JoinOfThree(parts[..a], parts[a..b + 1], parts[b + 1..]);
  }

  lemma JoinOfThree(x: seq<string>, y: seq<string>, z: seq<string>)
    requires |x| >= 1 && |y| >= 1 && |z| >= 1
    ensures Join(x + (y + z), Backslash) ==
            (Join(x, Backslash) + [Backslash]) + Join(y, Backslash) + ([Backslash] + Join(z, Backslash))
  {
    JoinAppend(x, y + z, Backslash);
    JoinAppend(y, z, Backslash);
    Regroup(Join(x, Backslash), Join(y, Backslash), Join(z, Backslash));
  }

  lemma CutInThree(parts: seq<string>, i: int, j: int)
    requires 0 <= i <= j <= |parts|
    ensures parts == parts[..i] + (parts[i..j] + parts[j..])
  {
  }

  lemma Regroup(x: string, y: string, z: string)
    ensures x + [Backslash] + (y + [Backslash] + z) == (x + [Backslash]) + y + ([Backslash] + z)
  {
  }

  predicate EndsWith(s: string, t: string)
  {
    |t| <= |s| && s[|s| - |t|..] == t
  }

  /** A shortened path keeps `parts[0]\parts[1]\` at its start and `\parts[last]` at its end. */
  lemma {:induction false} ElidedKeepsEnds(parts: seq<string>, a: int, b: int, r: string)
    requires ElidedAt(parts, a, b, r)
    ensures parts[0] + [Backslash] + parts[1] + [Backslash] <= r
    ensures EndsWith(r, [Backslash] + parts[|parts| - 1])
  {
    var n := |parts|;
    var mid := parts[..a] + [Ellipsis] + parts[b + 1..];
    // the first two and the last segment of `mid` are those of `parts`
    assert mid == parts[..2] + (parts[2..a] + [Ellipsis] + parts[b + 1..n - 1]) + [parts[n - 1]];
    JoinAppend(parts[..2], (parts[2..a] + [Ellipsis] + parts[b + 1..n - 1]) + [parts[n - 1]], Backslash);
    JoinAppend(parts[2..a] + [Ellipsis] + parts[b + 1..n - 1], [parts[n - 1]], Backslash);
    InitialParts(parts);
    assert parts[..2] + (parts[2..a] + [Ellipsis] + parts[b + 1..n - 1]) + [parts[n - 1]] ==
           parts[..2] + ((parts[2..a] + [Ellipsis] + parts[b + 1..n - 1]) + [parts[n - 1]]);
  }

  /** What the two loops of LimitPath guarantee about a shortened result:
      - its shape (ElidedAt);
      - if any interior segment survives, the result is shorter than the budget;
      - if more than one segment was elided, neither boundary segment of the elided run
        would have fitted back in (the loops stop only when the budget is exhausted). */
  predicate ShortenedAt(parts: seq<string>, maxTextLength: int, a: int, b: int, r: string)
  {
    ElidedAt(parts, a, b, r) &&
    ((a > 2 || b < |parts| - 2) ==> |r| < maxTextLength) &&
    (a < b ==> |r| + |parts[a]| + 1 >= maxTextLength && |r| + |parts[b]| + 1 >= maxTextLength)
  }

  /** The left part holds segments 0..i-1, each followed by `\`. */
  predicate LeftIs(parts: seq<string>, i: int, leftPart: string)
  {
    0 <= i <= |parts| && leftPart == Join(parts[..i], Backslash) + [Backslash]
  }

  /** The right part holds segments i+1.., each preceded by `\`. */
  predicate RightIs(parts: seq<string>, i: int, rightPart: string)
  {
    -1 <= i < |parts| && rightPart == [Backslash] + Join(parts[i + 1..], Backslash)
  }

  lemma InitialParts(parts: seq<string>)
    requires |parts| >= 2
    ensures LeftIs(parts, 2, parts[0] + [Backslash] + parts[1] + [Backslash])
    ensures RightIs(parts, |parts| - 2, [Backslash] + parts[|parts| - 1])
  {
    assert parts[..2] == [parts[0]] + [parts[1]];
    assert parts[..2][1..] == [parts[1]];
    assert parts[|parts| - 1..] == [parts[|parts| - 1]];
  }

  /** Appending segment i to the left part keeps it the join of a prefix. */
  lemma GrowLeft(parts: seq<string>, i: int, leftPart: string)
    requires 1 <= i < |parts| && LeftIs(parts, i, leftPart)
    ensures LeftIs(parts, i + 1, leftPart + parts[i] + [Backslash])
  {
    JoinAppend(parts[..i], [parts[i]], Backslash);
    assert parts[..i + 1] == parts[..i] + [parts[i]];
  }

  /** Prepending segment i to the right part keeps it the join of a suffix. */
  lemma GrowRight(parts: seq<string>, i: int, rightPart: string)
    requires 0 <= i < |parts| - 1 && RightIs(parts, i, rightPart)
    ensures RightIs(parts, i - 1, [Backslash] + parts[i] + rightPart)
  {
    JoinAppend([parts[i]], parts[i + 1..], Backslash);
    assert parts[i..] == [parts[i]] + parts[i + 1..];
  }

  /** The two parts around the ellipsis are the path with segments a..b elided. */
  lemma Assemble(parts: seq<string>, a: int, b: int, leftPart: string, rightPart: string)
    requires 2 <= a <= b <= |parts| - 2
    requires LeftIs(parts, a, leftPart) && RightIs(parts, b, rightPart)
    ensures ElidedAt(parts, a, b, leftPart + Ellipsis + rightPart)
  {
    JoinAppend(parts[..a], [Ellipsis] + parts[b + 1..], Backslash);
    JoinAppend([Ellipsis], parts[b + 1..], Backslash);
    assert parts[..a] + [Ellipsis] + parts[b + 1..] == parts[..a] + ([Ellipsis] + parts[b + 1..]);
  }

  method LimitPath(folder: string, maxTextLength: int) returns (r: string)
    ensures |folder| < maxTextLength ==> r == folder
    ensures |folder| >= maxTextLength && |Split(folder, Backslash)| <= 3 ==> r == folder
    ensures |folder| >= maxTextLength && |Split(folder, Backslash)| > 3 ==>
              exists a, b :: ShortenedAt(Split(folder, Backslash), maxTextLength, a, b, r)
  {
    if |folder| < maxTextLength {
      return folder;
    }

    var folderParts := Split(folder, Backslash);
    if |folderParts| <= 3 {
      return folder;
    }
    var n := |folderParts|;

    var leftPart := folderParts[0] + [Backslash] + folderParts[1] + [Backslash];
    var rightPart := [Backslash] + folderParts[n - 1];
    InitialParts(folderParts);

    var leftIndex, rightIndex, nextAddAtLeft;
    leftPart, rightPart, leftIndex, rightIndex, nextAddAtLeft :=
      AlternateSides(folderParts, maxTextLength, leftPart, rightPart);

    nextAddAtLeft := !nextAddAtLeft;
    var nextIndex;
    leftPart, rightPart, nextIndex :=
      FillOneSide(folderParts, maxTextLength, leftPart, rightPart, leftIndex, rightIndex, nextAddAtLeft);

    r := leftPart + Ellipsis + rightPart;
    var a := if nextAddAtLeft then nextIndex else leftIndex;
    var b := if nextAddAtLeft then rightIndex else nextIndex;
    Assemble(folderParts, a, b, leftPart, rightPart);
    assert ShortenedAt(folderParts, maxTextLength, a, b, r);
  }

  /** The first loop of LimitPath: starting from `parts[0]\parts[1]\` and `\parts[last]`,
      add segments on the right first and then alternately on the left and the right,
      until only one segment is left between the two parts or the next one does not fit.
      Segments leftIndex..rightIndex are the ones not yet added. */
  method AlternateSides(parts: seq<string>, maxTextLength: int, leftPart0: string, rightPart0: string)
    returns (leftPart: string, rightPart: string, leftIndex: int, rightIndex: int, nextAddAtLeft: bool)
    requires |parts| >= 4
    requires LeftIs(parts, 2, leftPart0) && RightIs(parts, |parts| - 2, rightPart0)
    ensures 2 <= leftIndex <= rightIndex <= |parts| - 2
    ensures LeftIs(parts, leftIndex, leftPart) && RightIs(parts, rightIndex, rightPart)
    // right first, then alternating: the right side is never behind, and at most one ahead
    ensures (|parts| - 2 - rightIndex) == (leftIndex - 2) + (if nextAddAtLeft then 1 else 0)
    // every segment added kept the result within the budget
    ensures (leftIndex > 2 || rightIndex < |parts| - 2) ==> |leftPart| + |rightPart| + 1 < maxTextLength
    // unless the parts met, the segment due next did not fit
    ensures leftIndex != rightIndex ==>
              |leftPart| + |rightPart| + |parts[if nextAddAtLeft then leftIndex else rightIndex]| + 2 >= maxTextLength
  {
    var n := |parts|;
    leftPart, rightPart := leftPart0, rightPart0;
    leftIndex, rightIndex := 2, n - 2;
    nextAddAtLeft := false;
    var nextIndex := rightIndex;

    while leftIndex != rightIndex &&
          |leftPart| + |rightPart| + |parts[nextIndex]| + 2 < maxTextLength
      invariant 2 <= leftIndex <= rightIndex <= n - 2
      invariant nextIndex == if nextAddAtLeft then leftIndex else rightIndex
      invariant LeftIs(parts, leftIndex, leftPart) && RightIs(parts, rightIndex, rightPart)
      invariant (n - 2 - rightIndex) == (leftIndex - 2) + (if nextAddAtLeft then 1 else 0)
      invariant (leftIndex > 2 || rightIndex < n - 2) ==> |leftPart| + |rightPart| + 1 < maxTextLength
      decreases rightIndex - leftIndex
    {
      if nextAddAtLeft {
        GrowLeft(parts, leftIndex, leftPart);
        leftPart := leftPart + parts[leftIndex] + [Backslash];
        leftIndex := leftIndex + 1;
        nextAddAtLeft := false;
        nextIndex := rightIndex;
      } else {
        GrowRight(parts, rightIndex, rightPart);
        rightPart := [Backslash] + parts[rightIndex] + rightPart;
        rightIndex := rightIndex - 1;
        nextAddAtLeft := true;
        nextIndex := leftIndex;
      }
    }
  }

  /** The second loop of LimitPath: after the first loop stopped on one side, keep adding
      segments on the other side (`nextAddAtLeft`) while they fit. The side that stopped the
      first loop stays blocked, which keeps nextIndex between leftIndex and rightIndex. On
      return the elided segments are a..b, with a = nextIndex when adding on the left and
      b = nextIndex when adding on the right. */
  method FillOneSide(parts: seq<string>, maxTextLength: int, leftPart0: string, rightPart0: string,
                     leftIndex: int, rightIndex: int, nextAddAtLeft: bool)
    returns (leftPart: string, rightPart: string, nextIndex: int)
    requires 2 <= leftIndex <= rightIndex <= |parts| - 2
    requires LeftIs(parts, leftIndex, leftPart0) && RightIs(parts, rightIndex, rightPart0)
    requires (leftIndex > 2 || rightIndex < |parts| - 2) ==> |leftPart0| + |rightPart0| + 1 < maxTextLength
    requires leftIndex != rightIndex ==>
               |leftPart0| + |rightPart0| + |parts[if nextAddAtLeft then rightIndex else leftIndex]| + 2 >= maxTextLength
    ensures leftIndex <= nextIndex <= rightIndex
    ensures nextAddAtLeft ==> LeftIs(parts, nextIndex, leftPart) && rightPart == rightPart0
    ensures !nextAddAtLeft ==> leftPart == leftPart0 && RightIs(parts, nextIndex, rightPart)
    ensures var a, b := (if nextAddAtLeft then nextIndex else leftIndex), (if nextAddAtLeft then rightIndex else nextIndex);
            ((a > 2 || b < |parts| - 2) ==> |leftPart| + |rightPart| + 1 < maxTextLength) &&
            (a < b ==> |leftPart| + |rightPart| + |parts[a]| + 2 >= maxTextLength &&
                       |leftPart| + |rightPart| + |parts[b]| + 2 >= maxTextLength)
  {
    leftPart, rightPart := leftPart0, rightPart0;
    nextIndex := if nextAddAtLeft then leftIndex else rightIndex;
    ghost var blocked := if nextAddAtLeft then rightIndex else leftIndex;

    while leftIndex != rightIndex &&
          |leftPart| + |rightPart| + |parts[nextIndex]| + 2 < maxTextLength
      invariant leftIndex <= nextIndex <= rightIndex
      invariant nextAddAtLeft ==> LeftIs(parts, nextIndex, leftPart) && rightPart == rightPart0
      invariant !nextAddAtLeft ==> leftPart == leftPart0 && RightIs(parts, nextIndex, rightPart)
      invariant leftIndex != rightIndex ==>
                  |leftPart| + |rightPart| + |parts[blocked]| + 2 >= maxTextLength
      invariant var a, b := (if nextAddAtLeft then nextIndex else leftIndex), (if nextAddAtLeft then rightIndex else nextIndex);
                (a > 2 || b < |parts| - 2) ==> |leftPart| + |rightPart| + 1 < maxTextLength
      decreases if nextAddAtLeft then rightIndex - nextIndex else nextIndex - leftIndex
    {
      if nextAddAtLeft {
        GrowLeft(parts, nextIndex, leftPart);
        leftPart := leftPart + parts[nextIndex] + [Backslash];
        nextIndex := nextIndex + 1;
      } else {
        GrowRight(parts, nextIndex, rightPart);
        rightPart := [Backslash] + parts[nextIndex] + rightPart;
        nextIndex := nextIndex - 1;
      }
    }
  }
}
