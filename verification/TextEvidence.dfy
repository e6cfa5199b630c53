/**
 What a text by itself gives away about how it was read: damaged characters, too little of it, lines
 that come three times, Arabic words fallen apart into letters.  Each of the source's tests is
 computed as there, and then said in terms of the characters and words of the text.
 */
module TextEvidence {
  import opened Texts

  /** The character classes of Python's string methods. */
  datatype Classes = Classes(isSpace: char -> bool, isAlnum: char -> bool, isLineBreak: char -> bool)

  // ---------- The tests ----------

  function StripLeft(cc: Classes, s: string): string {
    if s != "" && cc.isSpace(s[0]) then StripLeft(cc, s[1..]) else s
  }

  function StripRight(cc: Classes, s: string): string {
    if s != "" && cc.isSpace(s[|s| - 1]) then StripRight(cc, s[..|s| - 1]) else s
  }

  function Strip(cc: Classes, s: string): string {
    StripRight(cc, StripLeft(cc, s))
  }

  predicate Corrupt(c: char) {
    || c == '\U{FFFD}'
    || 0xE000 <= c as int <= 0xF8FF
    || (c != '\n' && c != '\t' && c as int < 32)
  }

  function CountWhere(s: string, p: char -> bool): nat {
    if s == "" then 0 else CountWhere(s[..|s| - 1], p) + if p(s[|s| - 1]) then 1 else 0
  }

  function CorruptionCount(s: string): nat {
    CountWhere(s, c => Corrupt(c))
  }

  predicate SingleArabicLetter(token: string) {
    |token| == 1 && '\U{0600}' <= token[0] <= '\U{06FF}'
  }

  function CountTokens(tokens: seq<string>): nat {
    if tokens == [] then 0
    else CountTokens(tokens[..|tokens| - 1]) + if SingleArabicLetter(tokens[|tokens| - 1]) then 1 else 0
  }

  function FragmentCount(cc: Classes, s: string): nat {
    CountTokens(Split(s, cc.isSpace))
  }

  function JoinWords(words: seq<string>): string {
    if words == [] then ""
    else if |words| == 1 then words[0]
    else words[0] + " " + JoinWords(words[1..])
  }

  /** The non-blank lines with their white space normalized.  Cutting at every line-break
      character differs from `splitlines` only by blank lines, which are dropped. */
  function NormalizedLines(cc: Classes, lines: seq<string>): seq<string> {
    if lines == [] then []
    else
      var n := |lines| - 1;
      NormalizedLines(cc, lines[..n])
      + if Strip(cc, lines[n]) == "" then [] else [JoinWords(Split(lines[n], cc.isSpace))]
  }

  predicate LineRepeats(cc: Classes, s: string) {
    var lines := NormalizedLines(cc, Split(s, cc.isLineBreak));
    exists k :: 0 <= k < |lines| && multiset(lines)[lines[k]] >= 3
  }

  // ---------- Stripping ----------

  /** The text from one position to another is all of it but the white space around. */
  ghost predicate Stripped(cc: Classes, s: string, from: int, to: int) {
    && 0 <= from <= to <= |s|
    && (forall k :: 0 <= k < from ==> cc.isSpace(s[k]))
    && (forall k :: to <= k < |s| ==> cc.isSpace(s[k]))
    && (from < to ==> !cc.isSpace(s[from]) && !cc.isSpace(s[to - 1]))
  }

  lemma {:induction false} StripLeftMeans(cc: Classes, s: string) returns (from: nat)
    ensures from <= |s| && StripLeft(cc, s) == s[from..]
    ensures forall k :: 0 <= k < from ==> cc.isSpace(s[k])
    ensures from < |s| ==> !cc.isSpace(s[from])
  {
    if s == "" || !cc.isSpace(s[0]) {
      from := 0;
    } else {
      var rest := StripLeftMeans(cc, s[1..]);
      from := rest + 1;
      assert s[1..][rest..] == s[from..];
      assert forall k :: 0 < k <= rest ==> s[k] == s[1..][k - 1];
    }
  }

  lemma {:induction false} StripRightMeans(cc: Classes, s: string) returns (to: nat)
    ensures to <= |s| && StripRight(cc, s) == s[..to]
    ensures forall k :: to <= k < |s| ==> cc.isSpace(s[k])
    ensures to > 0 ==> !cc.isSpace(s[to - 1])
  {
    if s == "" || !cc.isSpace(s[|s| - 1]) {
      to := |s|;
    } else {
      to := StripRightMeans(cc, s[..|s| - 1]);
    }
  }

  lemma StripMeans(cc: Classes, s: string) returns (from: int, to: int)
    ensures Stripped(cc, s, from, to) && Strip(cc, s) == s[from..to]
  {
    var left := StripLeftMeans(cc, s);
    var t := s[left..];
    var right := StripRightMeans(cc, t);
    from, to := left, left + right;
    assert t[..right] == s[from..to];
    forall k | to <= k < |s| ensures cc.isSpace(s[k]) {
      assert s[k] == t[k - left];
    }
    assert right > 0 ==> t[right - 1] == s[to - 1];
  }

  lemma StrippedIsStrip(cc: Classes, s: string, from: int, to: int)
    requires Stripped(cc, s, from, to)
    ensures Strip(cc, s) == s[from..to]
  {
    var left, right := StripMeans(cc, s);
    hide Strip;
    if left < right {
      assert from <= left && right <= to;
      assert from == left && to == right;
    } else {
      assert forall k :: 0 <= k < |s| ==> cc.isSpace(s[k]);
    }
  }

  /** Some character is not white space. */
  ghost predicate Visible(cc: Classes, s: string) {
    exists k :: 0 <= k < |s| && !cc.isSpace(s[k])
  }

  lemma StripLeavesVisible(cc: Classes, s: string)
    ensures Strip(cc, s) != "" <==> Visible(cc, s)
  {
    var from, to := StripMeans(cc, s);
    hide Strip;
  }

  // ---------- Damage ----------

  /** U+FFFD, a private-use character, or a control character other than tab and newline. */
  predicate Damaged(code: int) {
    code == 65533 || (57344 <= code && code < 63744) || (0 <= code && code < 32 && code != 9 && code != 10)
  }

  ghost predicate HasDamage(s: string) {
    exists k :: 0 <= k < |s| && Damaged(s[k] as int)
  }

  lemma CorruptIsDamaged(c: char)
    ensures Corrupt(c) <==> Damaged(c as int)
  {
    assert '\U{FFFD}' as int == 65533 && '\n' as int == 10 && '\t' as int == 9;
  }

  lemma {:induction false} CountedSome(s: string, p: char -> bool)
    ensures CountWhere(s, p) > 0 <==> exists k :: 0 <= k < |s| && p(s[k])
  {
    if s == "" {
    } else {
      var n := |s| - 1;
      CountedSome(s[..n], p);
      assert forall k :: 0 <= k < n ==> s[..n][k] == s[k];
    }
  }

  lemma CorruptionIsDamage(s: string)
    ensures CorruptionCount(s) > 0 <==> HasDamage(s)
  {
    CountedSome(s, c => Corrupt(c));
    forall k | 0 <= k < |s| ensures Corrupt(s[k]) <==> Damaged(s[k] as int) {
      CorruptIsDamaged(s[k]);
    }
    hide Corrupt, Damaged, CountWhere;
  }

  // ---------- Substance ----------

  ghost predicate TwoAlphanumeric(cc: Classes, s: string) {
    exists i, j :: 0 <= i < j < |s| && cc.isAlnum(s[i]) && cc.isAlnum(s[j])
  }

  lemma {:induction false} CountedTwo(cc: Classes, s: string)
    ensures CountWhere(s, cc.isAlnum) >= 2 <==> TwoAlphanumeric(cc, s)
  {
    if s == "" {
    } else {
      var n := |s| - 1;
      CountedTwo(cc, s[..n]);
      CountedSome(s[..n], cc.isAlnum);
      assert forall k :: 0 <= k < n ==> s[..n][k] == s[k];
      if TwoAlphanumeric(cc, s) {
        var i, j :| 0 <= i < j < |s| && cc.isAlnum(s[i]) && cc.isAlnum(s[j]);
        assert j < n ==> cc.isAlnum(s[..n][i]) && cc.isAlnum(s[..n][j]);
      }
    }
  }

  // ---------- Fragments ----------

  /** The words that are one letter of the Arabic block. */
  ghost function Fragments(words: seq<string>): set<int> {
    set k | 0 <= k < |words| && |words[k]| == 1 && 1536 <= words[k][0] as int < 1792
  }

  lemma {:induction false} FragmentsCounted(words: seq<string>)
    ensures CountTokens(words) == |Fragments(words)|
  {
    if words == [] {
      assert Fragments(words) == {};
    } else {
      var n := |words| - 1;
      FragmentsCounted(words[..n]);
      assert '\U{0600}' as int == 1536 && '\U{06FF}' as int == 1791;
      var before := Fragments(words[..n]);
      assert Fragments(words) == if SingleArabicLetter(words[n]) then before + {n} else before;
    }
  }

  // ---------- Repeated lines ----------

  /** A word: something, and no white space in it. */
  ghost predicate IsWord(cc: Classes, word: string) {
    word != "" && forall k :: 0 <= k < |word| ==> !cc.isSpace(word[k])
  }

  lemma {:induction false} SplitIntoWords(cc: Classes, s: string)
    ensures forall k :: 0 <= k < |Split(s, cc.isSpace)| ==> IsWord(cc, Split(s, cc.isSpace)[k])
    ensures Split(s, cc.isSpace) != [] <==> Visible(cc, s)
    decreases |s|
  {
    if s == "" {
    } else if cc.isSpace(s[0]) {
      SplitIntoWords(cc, s[1..]);
      assert forall k :: 0 < k < |s| ==> s[k] == s[1..][k - 1];
      assert forall k :: 0 <= k < |s| - 1 ==> s[1..][k] == s[k + 1];
    } else {
      SplitIntoWords(cc, s[WordLength(s, cc.isSpace)..]);
    }
  }

  lemma SplitAfterWord(cc: Classes, word: string, rest: string)
    requires IsWord(cc, word) && cc.isSpace(' ')
    ensures Split(word + " " + rest, cc.isSpace) == [word] + Split(rest, cc.isSpace)
  {
    var s := word + " " + rest;
    assert s[|word|] == ' ' && s[..|word|] == word && s[|word|..] == " " + rest;
    assert WordLength(s, cc.isSpace) == |word| by {
      assert forall k :: 0 <= k < |word| ==> s[k] == word[k];
    }
    assert (" " + rest)[1..] == rest;
  }

  lemma SplitOneWord(cc: Classes, word: string)
    requires IsWord(cc, word)
    ensures Split(word, cc.isSpace) == [word]
  {
    assert WordLength(word, cc.isSpace) == |word|;
    assert word[..|word|] == word && word[|word|..] == "";
  }

  /** Joining words by single spaces loses nothing. */
  lemma {:induction false} JoinThenSplit(cc: Classes, words: seq<string>)
    requires cc.isSpace(' ') && forall k :: 0 <= k < |words| ==> IsWord(cc, words[k])
    ensures Split(JoinWords(words), cc.isSpace) == words
  {
    if words == [] {
    } else if |words| == 1 {
      SplitOneWord(cc, words[0]);
    } else {
      JoinThenSplit(cc, words[1..]);
      hide Split;
      SplitAfterWord(cc, words[0], JoinWords(words[1..]));
    }
  }

  /** The lines that, split into words, are these. */
  ghost function LinesOf(cc: Classes, lines: seq<string>, words: seq<string>): set<int> {
    set k | 0 <= k < |lines| && Split(lines[k], cc.isSpace) == words
  }

  /** Some line that is not blank stands in the text three times, but for white space. */
  ghost predicate LineThrice(cc: Classes, s: string) {
    var lines := Split(s, cc.isLineBreak);
    exists k :: 0 <= k < |lines| && Visible(cc, lines[k]) && |LinesOf(cc, lines, Split(lines[k], cc.isSpace))| >= 3
  }

  lemma LinesOneMore(cc: Classes, lines: seq<string>, words: seq<string>)
    requires lines != []
    ensures |LinesOf(cc, lines, words)| == |LinesOf(cc, lines[..|lines| - 1], words)| +
            if Split(lines[|lines| - 1], cc.isSpace) == words then 1 else 0
  {
    var n := |lines| - 1;
    var before := LinesOf(cc, lines[..n], words);
    assert LinesOf(cc, lines, words) == if Split(lines[n], cc.isSpace) == words then before + {n} else before;
  }

  lemma NormalizedOneMore(cc: Classes, lines: seq<string>, x: string)
    requires lines != []
    ensures var last := lines[|lines| - 1];
            multiset(NormalizedLines(cc, lines))[x] == multiset(NormalizedLines(cc, lines[..|lines| - 1]))[x] +
            if Visible(cc, last) && JoinWords(Split(last, cc.isSpace)) == x then 1 else 0
  {
    StripLeavesVisible(cc, lines[|lines| - 1]);
    hide Strip, Split, JoinWords, Visible;
  }

  lemma JoinTellsWords(cc: Classes, a: string, b: string)
    requires cc.isSpace(' ')
    ensures JoinWords(Split(a, cc.isSpace)) == JoinWords(Split(b, cc.isSpace)) <==>
            Split(a, cc.isSpace) == Split(b, cc.isSpace)
  {
    SplitIntoWords(cc, a);
    SplitIntoWords(cc, b);
    JoinThenSplit(cc, Split(a, cc.isSpace));
    JoinThenSplit(cc, Split(b, cc.isSpace));
  }

  /** Of a line that is not blank there are as many normalized copies as lines with the same words. */
  lemma {:induction false} CopiesCounted(cc: Classes, lines: seq<string>, line: string)
    requires Visible(cc, line)
    ensures var words := Split(line, cc.isSpace);
            && multiset(NormalizedLines(cc, lines))[JoinWords(words)] >= |LinesOf(cc, lines, words)|
            && (cc.isSpace(' ') ==>
                  multiset(NormalizedLines(cc, lines))[JoinWords(words)] == |LinesOf(cc, lines, words)|)
  {
    var words := Split(line, cc.isSpace);
    if lines == [] {
      assert LinesOf(cc, lines, words) == {};
    } else {
      var last := lines[|lines| - 1];
      SplitIntoWords(cc, line);
      SplitIntoWords(cc, last);
      if cc.isSpace(' ') {
        JoinTellsWords(cc, line, last);
      }
      hide *;
      CopiesCounted(cc, lines[..|lines| - 1], line);
      LinesOneMore(cc, lines, words);
      NormalizedOneMore(cc, lines, JoinWords(words));
    }
  }

  /** Every normalized line comes from one that is not blank, and the other way round. */
  lemma {:induction false} NormalizedComesFrom(cc: Classes, lines: seq<string>, x: string)
    ensures x in NormalizedLines(cc, lines) <==>
            exists k :: 0 <= k < |lines| && Visible(cc, lines[k]) && x == JoinWords(Split(lines[k], cc.isSpace))
  {
    if lines == [] {
    } else {
      var n := |lines| - 1;
      NormalizedComesFrom(cc, lines[..n], x);
      StripLeavesVisible(cc, lines[n]);
      hide Strip, Split, JoinWords, Visible;
      assert forall k :: 0 <= k < n ==> lines[..n][k] == lines[k];
    }
  }

  /** The test for repeated lines sees every line that stands three times; and no other, given that the
      blank, which joins the words, is white space. */
  lemma LineThriceRepeats(cc: Classes, s: string)
    ensures LineThrice(cc, s) ==> LineRepeats(cc, s)
    ensures cc.isSpace(' ') ==> (LineRepeats(cc, s) <==> LineThrice(cc, s))
  {
    hide Split, NormalizedLines, JoinWords, LinesOf, Visible;
    var lines := Split(s, cc.isLineBreak);
    var normalized := NormalizedLines(cc, lines);
    if LineThrice(cc, s) {
      var k :| 0 <= k < |lines| && Visible(cc, lines[k]) && |LinesOf(cc, lines, Split(lines[k], cc.isSpace))| >= 3;
      CopiesCounted(cc, lines, lines[k]);
      var x := JoinWords(Split(lines[k], cc.isSpace));
      assert x in multiset(normalized);
      var m :| 0 <= m < |normalized| && normalized[m] == x;
    }
    if cc.isSpace(' ') && LineRepeats(cc, s) {
      var m :| 0 <= m < |normalized| && multiset(normalized)[normalized[m]] >= 3;
      NormalizedComesFrom(cc, lines, normalized[m]);
      var k :| 0 <= k < |lines| && Visible(cc, lines[k]) && normalized[m] == JoinWords(Split(lines[k], cc.isSpace));
      CopiesCounted(cc, lines, lines[k]);
    }
  }
}
