/** The pieces of Python's string type that the models use; what counts as white space is a parameter. */
module Texts {

  /** The length of the leading run of non-space characters. */
  function WordLength(text: string, isSpace: char -> bool): (n: nat)
    ensures n <= |text|
    ensures forall k :: 0 <= k < n ==> !isSpace(text[k])
    ensures n < |text| ==> isSpace(text[n])
  {
    if text == "" || isSpace(text[0]) then 0 else 1 + WordLength(text[1..], isSpace)
  }

  /** Python's `text.split()`. */
  function Split(text: string, isSpace: char -> bool): seq<string> {
    if text == "" then []
    else if isSpace(text[0]) then Split(text[1..], isSpace)
    else
      var n := WordLength(text, isSpace);
      [text[..n]] + Split(text[n..], isSpace)
  }

  /** Part stands in text at position k. */
  predicate OccursAt(text: string, part: string, k: int) {
    0 <= k <= |text| - |part| && text[k..k + |part|] == part
  }

  lemma OccursLater(text: string, part: string, from: nat, j: int)
    requires from <= |text| && j >= from
    ensures OccursAt(text, part, j) <==> OccursAt(text[from..], part, j - from)
  {
    if j <= |text| - |part| {
      assert text[from..][j - from..j - from + |part|] == text[j..j + |part|];
    }
  }

  lemma OccursInTail(text: string, part: string)
    ensures forall j :: OccursAt(text, part, j) ==> 0 <= j <= |text|
    ensures text != "" ==> forall j :: j > 0 && OccursAt(text, part, j) ==> OccursAt(text[1..], part, j - 1)
    ensures text != "" ==> forall j :: OccursAt(text[1..], part, j) ==> OccursAt(text, part, j + 1)
  {
    if text != "" {
      forall j | j > 0 ensures OccursAt(text, part, j) <==> OccursAt(text[1..], part, j - 1) {
        OccursLater(text, part, 1, j);
      }
      forall j | OccursAt(text[1..], part, j) ensures OccursAt(text, part, j + 1) {
        OccursLater(text, part, 1, j + 1);
      }
    }
  }

  /** `text.find(part)`. */
  function Find(text: string, part: string): (k: int)
    ensures k == -1 || OccursAt(text, part, k)
    ensures forall j :: OccursAt(text, part, j) ==> 0 <= k <= j
    decreases |text|
  {
    OccursInTail(text, part);
    hide OccursAt;
    if OccursAt(text, part, 0) then 0
    else if text == "" then -1
    else
      var rest := Find(text[1..], part);
      if rest == -1 then -1 else rest + 1
  }

  /** `text.count(part)`: occurrences are counted left to right and may not overlap. */
  function Count(text: string, part: string): nat
    requires part != ""
    decreases |text|
  {
    var k := Find(text, part);
    if k == -1 then 0 else 1 + Count(text[k + |part|..], part)
  }

  /** `text.replace(part, replacement, 1)`. */
  function ReplaceFirst(text: string, part: string, replacement: string): string {
    var k := Find(text, part);
    if k == -1 then text else text[..k] + replacement + text[k + |part|..]
  }

  lemma FindMeans(text: string, part: string)
    ensures var k := Find(text, part);
            && (k == -1 || OccursAt(text, part, k))
            && forall j :: OccursAt(text, part, j) ==> 0 <= k <= j
  {
  }

  /** The part does not stand in the text at this position or later. */
  predicate NoneFrom(text: string, part: string, from: int) {
    forall j :: from <= j <= |text| ==> !OccursAt(text, part, j)
  }

  lemma FoundLater(text: string, part: string, from: nat)
    requires from <= |text|
    ensures Find(text[from..], part) == -1 <==> NoneFrom(text, part, from)
  {
    forall j | j >= from ensures OccursAt(text, part, j) <==> OccursAt(text[from..], part, j - from) {
      OccursLater(text, part, from, j);
    }
    FindMeans(text[from..], part);
    hide Find, OccursAt;
    var k := Find(text[from..], part);
    if k != -1 {
      OccursNotBefore(text[from..], part, k);
      OccursLater(text, part, from, k + from);
    }
  }

  lemma OccursNotBefore(text: string, part: string, k: int)
    requires OccursAt(text, part, k)
    ensures 0 <= k <= |text|
  {
  }

  lemma CountNone(text: string, part: string)
    requires part != ""
    ensures Count(text, part) == 0 <==> Find(text, part) == -1
  {
    hide Find;
  }

  lemma CountFirst(text: string, part: string, k: int, rest: string)
    requires part != "" && Find(text, part) == k != -1
    requires 0 <= k <= |text| - |part| && rest == text[k + |part|..]
    ensures Count(text, part) == 1 + Count(rest, part)
  {
    hide Find;
  }

  lemma CountOneAt(text: string, part: string, k: int, from: nat, rest: string)
    requires part != "" && Find(text, part) == k != -1
    requires 0 <= k && from == k + |part| <= |text| && rest == text[from..]
    ensures Count(text, part) == 1 <==> NoneFrom(text, part, from)
  {
    hide *;
    CountFirst(text, part, k, rest);
    CountNone(rest, part);
    FoundLater(text, part, from);
  }

  lemma CountOneAndNoMore(text: string, part: string)
    requires part != ""
    ensures Count(text, part) == 1 <==> Find(text, part) != -1 && NoneFrom(text, part, Find(text, part) + |part|)
  {
    CountNone(text, part);
    var k := Find(text, part);
    if k != -1 {
      OccursFits(text, part, k);
      hide *;
      CountOneAt(text, part, k, k + |part|, text[k + |part|..]);
    }
  }

  lemma OccursFits(text: string, part: string, k: int)
    requires OccursAt(text, part, k)
    ensures 0 <= k <= |text| - |part|
  {
  }

  /** A count of one means: there is an occurrence, and every occurrence overlaps the first. */
  lemma CountOneIffAllOverlapFirst(text: string, part: string)
    requires part != ""
    ensures Count(text, part) == 1 <==>
            Find(text, part) != -1 && forall j :: OccursAt(text, part, j) ==> j < Find(text, part) + |part|
  {
    CountOneAndNoMore(text, part);
    hide Count, Find;
    forall j | OccursAt(text, part, j) ensures j <= |text| {
    }
    hide OccursAt;
  }

  /** The part can be laid over itself with a shift. */
  predicate SelfOverlaps(part: string) {
    exists d :: 0 < d < |part| && ShiftFits(part, d)
  }

  predicate ShiftFits(part: string, d: nat)
    requires d <= |part|
  {
    part[d..] == part[..|part| - d]
  }

  ghost predicate OccursOnlyAt(text: string, part: string, k: int) {
    OccursAt(text, part, k) && forall j :: OccursAt(text, part, j) ==> j == k
  }

  ghost predicate OccursOnce(text: string, part: string) {
    exists k :: OccursOnlyAt(text, part, k)
  }

  /** Two occurrences that overlap show a shift of the part over itself. */
  lemma OverlapShifts(text: string, part: string, k: int, j: int)
    requires OccursAt(text, part, k) && OccursAt(text, part, j) && k < j < k + |part|
    ensures SelfOverlaps(part)
  {
    var d := j - k;
    forall i | 0 <= i < |part| - d ensures part[d..][i] == part[..|part| - d][i] {
      assert part[d + i] == text[k..k + |part|][d + i];
      assert part[i] == text[j..j + |part|][i];
    }
    assert ShiftFits(part, d);
  }

  /** For a part that cannot overlap itself, a count of one is a unique occurrence. */
  lemma CountOneIsUnique(text: string, part: string)
    requires part != "" && !SelfOverlaps(part)
    ensures Count(text, part) == 1 <==> OccursOnce(text, part)
  {
    CountOneIffAllOverlapFirst(text, part);
    hide Count, Find, SelfOverlaps;
    var k := Find(text, part);
    forall j | OccursAt(text, part, j) && j < k + |part| ensures j == k {
      if j != k {
        OverlapShifts(text, part, k, j);
      }
    }
    if Count(text, part) == 1 {
      assert OccursOnlyAt(text, part, k);
    }
    if OccursOnce(text, part) {
      var once :| OccursOnlyAt(text, part, once);
      FindMeans(text, part);
    }
  }

  /** For any other it is not: a text with a count of one and two occurrences. */
  lemma CountMissesOverlap(part: string, d: nat) returns (text: string)
    requires 0 < d < |part| && ShiftFits(part, d)
    ensures Count(text, part) == 1 && OccursAt(text, part, 0) && OccursAt(text, part, d)
    ensures !OccursOnce(text, part)
  {
    text := part[..d] + part;
    assert text[d..d + |part|] == part;
    assert text == part + part[|part| - d..] by {
      assert part == part[..|part| - d] + part[|part| - d..] == part[d..] + part[|part| - d..];
      assert part == part[..d] + part[d..];
    }
    assert text[0..|part|] == part;
    CountOneIffAllOverlapFirst(text, part);
    forall k ensures !OccursOnlyAt(text, part, k) {
      assert OccursAt(text, part, 0) && OccursAt(text, part, d);
    }
  }

  /** Exactly the parts that cannot overlap themselves are counted reliably. */
  lemma CountOneIsUniqueIff(part: string)
    requires part != ""
    ensures (forall text :: Count(text, part) == 1 <==> OccursOnce(text, part)) <==> !SelfOverlaps(part)
  {
    if SelfOverlaps(part) {
      var d :| 0 < d < |part| && ShiftFits(part, d);
      var text := CountMissesOverlap(part, d);
    } else {
      forall text ensures Count(text, part) == 1 <==> OccursOnce(text, part) {
        CountOneIsUnique(text, part);
      }
    }
  }

  /** A count of one with two occurrences. */
  lemma CountOneIsNotUnique(text: string, part: string)
    requires text == "aaa" && part == "aa"
    ensures Count(text, part) == 1 && OccursAt(text, part, 0) && OccursAt(text, part, 1)
  {
    CountOneIffAllOverlapFirst(text, part);
    assert OccursAt(text, part, 0);
  }
}
