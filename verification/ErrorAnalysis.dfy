/**
 Error records and their counts for one OCR sample, built from the alignments of the
 characters and of the whitespace-separated words.  The Arabic-aware classifiers and the
 whitespace test are parameters.
 */
module ErrorAnalysis {
  import opened Alignment
  import opened EditDistance
  import opened Options
  import opened Tally
  import opened Texts

  datatype Level = CharLevel | WordLevel

  datatype ErrorRecord = ErrorRecord(
    level: Level,
    operation: Kind,
    errorType: string,
    gt: Option<string>,
    predicted: Option<string>,
    position: int,
    predictedPosition: Option<int>,
    wordIndex: Option<int>,
    context: string,
    normalized: bool)

  type CharClassifier = (Option<string>, Option<string>) -> string
  type WordClassifier = (string, string) -> string

  const CONTEXT_RADIUS := 12

  function Context(reference: string, index: int): string
    requires 0 <= index < |reference|
  {
    var start := if index - CONTEXT_RADIUS > 0 then index - CONTEXT_RADIUS else 0;
    var end := if index + CONTEXT_RADIUS + 1 < |reference| then index + CONTEXT_RADIUS + 1 else |reference|;
    reference[start..end]
  }

  // ---------- Character records ----------

  function CharRecord(reference: string, hypothesis: string, step: Step, normalized: bool, classify: CharClassifier)
    : ErrorRecord
    requires StepFits(reference, hypothesis, step)
  {
    match step.kind
    case Match =>
      ErrorRecord(CharLevel, Match, "match", Some([reference[step.ref]]), Some([hypothesis[step.hyp]]),
                  step.ref, Some(step.hyp), None, "", normalized)
    case Substitution =>
      var gt, predicted := Some([reference[step.ref]]), Some([hypothesis[step.hyp]]);
      ErrorRecord(CharLevel, Substitution, classify(gt, predicted), gt, predicted,
                  step.ref, Some(step.hyp), None, Context(reference, step.ref), normalized)
    case Deletion =>
      var gt := Some([reference[step.ref]]);
      ErrorRecord(CharLevel, Deletion, classify(gt, None), gt, None,
                  step.ref, None, None, Context(reference, step.ref), normalized)
    case Insertion =>
      var predicted := Some([hypothesis[step.hyp]]);
      ErrorRecord(CharLevel, Insertion, classify(None, predicted), None, predicted,
                  step.ref, Some(step.hyp), None, Context(hypothesis, step.hyp), normalized)
  }

  /** Record k describes operation k. */
  ghost predicate RecordsFollow(records: seq<ErrorRecord>, ops: seq<Step>) {
    |records| == |ops| && forall k :: 0 <= k < |ops| ==> records[k].operation == ops[k].kind
  }

  /** The record quotes the reference at the operation's one index and the hypothesis at its other. */
  ghost predicate Quotes(reference: string, hypothesis: string, step: Step, record: ErrorRecord) {
    && (if step.kind == Insertion then record.gt == None
        else 0 <= step.ref < |reference| && record.gt == Some([reference[step.ref]]))
    && (if step.kind == Deletion then record.predicted == None
        else 0 <= step.hyp < |hypothesis| && record.predicted == Some([hypothesis[step.hyp]]))
  }

  /** The character at position k with the twelve before it and the twelve after it, as far as there
      are as many. */
  ghost predicate Surrounds(context: string, text: string, k: int) {
    0 <= k < |text| &&
    var before := if k <= 12 then k else 12;
    var after := if |text| - 1 - k <= 12 then |text| - 1 - k else 12;
    context == text[k - before..k] + [text[k]] + text[k + 1..k + 1 + after]
  }

  /** What the record of one operation says, in terms of the two texts. */
  ghost predicate CharRecordOf(reference: string, hypothesis: string, normalized: bool, classify: CharClassifier,
                               step: Step, record: ErrorRecord)
  {
    && record.level == CharLevel && record.operation == step.kind
    && record.normalized == normalized && record.wordIndex == None
    && Quotes(reference, hypothesis, step, record)
    && record.position == (if step.kind == Insertion then -1 else step.ref)
    && record.predictedPosition == (if step.kind == Deletion then None else Some(step.hyp))
    && (step.kind == Match ==> record.errorType == "match" && record.context == "")
    && (step.kind != Match ==> record.errorType == classify(record.gt, record.predicted))
    && (step.kind == Substitution || step.kind == Deletion ==> Surrounds(record.context, reference, step.ref))
    && (step.kind == Insertion ==> Surrounds(record.context, hypothesis, step.hyp))
  }

  lemma ContextSurrounds(text: string, k: int)
    requires 0 <= k < |text|
    ensures Surrounds(Context(text, k), text, k)
  {
    var from := if k <= 12 then 0 else k - 12;
    var to := if |text| - 1 - k <= 12 then |text| else k + 13;
    assert Context(text, k) == text[from..to];
    hide Context;
    Parts(text, from, k, to);
  }

  lemma Parts(text: string, from: nat, k: nat, to: nat)
    requires from <= k < to <= |text|
    ensures text[from..to] == text[from..k] + [text[k]] + text[k + 1..to]
  {
    assert text[from..to] == text[from..k] + text[k..to];
    assert text[k..to] == [text[k]] + text[k + 1..to];
  }

  lemma CharRecordDescribes(reference: string, hypothesis: string, normalized: bool, classify: CharClassifier,
                            step: Step)
    requires StepFits(reference, hypothesis, step)
    ensures CharRecordOf(reference, hypothesis, normalized, classify, step,
                         CharRecord(reference, hypothesis, step, normalized, classify))
  {
    hide Context, Surrounds;
    if step.kind == Substitution || step.kind == Deletion {
      ContextSurrounds(reference, step.ref);
    } else if step.kind == Insertion {
      ContextSurrounds(hypothesis, step.hyp);
    }
  }

  ghost predicate CharRecordsOf(reference: string, hypothesis: string, normalized: bool, classify: CharClassifier,
                                records: seq<ErrorRecord>)
  {
    var ops := Canonical(reference, hypothesis);
    && |records| == |ops|
    && forall k :: 0 <= k < |ops| ==> CharRecordOf(reference, hypothesis, normalized, classify, ops[k], records[k])
  }

  lemma CharRecordsFollow(reference: string, hypothesis: string, normalized: bool,
                          classify: CharClassifier, records: seq<ErrorRecord>)
    requires CharRecordsOf(reference, hypothesis, normalized, classify, records)
    ensures RecordsFollow(records, Canonical(reference, hypothesis))
  {
    hide Canonical, Surrounds, Quotes;
  }

  lemma ScriptFits<T>(s: seq<T>, t: seq<T>, ops: seq<Step>)
    requires IsScript(s, t, ops)
    ensures forall k :: 0 <= k < |ops| ==> StepFits(s, t, ops[k])
  {
  }

  method CharRecords(reference: string, hypothesis: string, normalized: bool, classify: CharClassifier)
    returns (records: seq<ErrorRecord>)
    ensures CharRecordsOf(reference, hypothesis, normalized, classify, records)
  {
    hide Canonical, Distance, IsScript, Cost, StepFits, CharRecord, CharRecordOf;
    var ops := Align(reference, hypothesis);
    ScriptFits(reference, hypothesis, ops);
    records := [];
    for k := 0 to |ops|
      invariant |records| == k
      invariant forall r :: 0 <= r < k ==>
                  CharRecordOf(reference, hypothesis, normalized, classify, ops[r], records[r])
    {
      CharRecordDescribes(reference, hypothesis, normalized, classify, ops[k]);
      records := records + [CharRecord(reference, hypothesis, ops[k], normalized, classify)];
    }
  }

  // ---------- Words ----------

  datatype Span = Span(start: nat, end: nat)

  ghost predicate IsSpan(text: string, span: Span, isSpace: char -> bool) {
    && span.start < span.end <= |text|
    && forall k :: span.start <= k < span.end ==> !isSpace(text[k])
  }

  lemma SplitAtWord(text: string, start: nat, end: nat, isSpace: char -> bool)
    requires IsSpan(text, Span(start, end), isSpace)
    requires end == |text| || isSpace(text[end])
    ensures Split(text[start..], isSpace) == [text[start..end]] + Split(text[end..], isSpace)
  {
    var rest := text[start..];
    assert forall k :: 0 <= k < end - start ==> rest[k] == text[start + k];
    assert end < |text| ==> rest[end - start] == text[end];
    assert WordLength(rest, isSpace) == end - start;
    assert rest[..end - start] == text[start..end] && rest[end - start..] == text[end..];
  }

  lemma NextWord(text: string, words: seq<string>, start: nat, end: nat, isSpace: char -> bool)
    requires IsSpan(text, Span(start, end), isSpace) && (end == |text| || isSpace(text[end]))
    requires Split(text, isSpace) == words + Split(text[start..], isSpace)
    ensures Split(text, isSpace) == words + [text[start..end]] + Split(text[end..], isSpace)
  {
    SplitAtWord(text, start, end, isSpace);
    hide *;
  }

  /** Span k cuts out word k. */
  ghost predicate SpansCutWords(text: string, spans: seq<Span>, words: seq<string>, isSpace: char -> bool) {
    && |spans| == |words|
    && forall k :: 0 <= k < |spans| ==>
         IsSpan(text, spans[k], isSpace) && text[spans[k].start..spans[k].end] == words[k]
  }

  lemma SkipSpace(text: string, index: nat, isSpace: char -> bool)
    requires index < |text| && isSpace(text[index])
    ensures Split(text[index..], isSpace) == Split(text[index + 1..], isSpace)
  {
    assert text[index..][1..] == text[index + 1..];
  }

  lemma SpanGrows(text: string, start: nat, end: nat, isSpace: char -> bool)
    requires end < |text| && !isSpace(text[end])
    requires start == end || IsSpan(text, Span(start, end), isSpace)
    ensures IsSpan(text, Span(start, end + 1), isSpace)
  {
  }

  lemma CutWord(text: string, spans: seq<Span>, words: seq<string>, span: Span,
                isSpace: char -> bool)
    requires SpansCutWords(text, spans, words, isSpace) && IsSpan(text, span, isSpace)
    ensures SpansCutWords(text, spans + [span], words + [text[span.start..span.end]], isSpace)
  {
  }

  /** The (start, end) range of each word; span k cuts out exactly word k of `Split`. */
  method WordCharIndex(reference: string, isSpace: char -> bool) returns (spans: seq<Span>)
    ensures SpansCutWords(reference, spans, Split(reference, isSpace), isSpace)
  {
    spans := [];
    ghost var words: seq<string> := [];
    var start: Option<nat> := None;
    assert reference[0..] == reference;
    assert SpansCutWords(reference, spans, words, isSpace);
    hide *;
    for index := 0 to |reference|
      invariant start.Some? ==> IsSpan(reference, Span(start.value, index), isSpace)
      invariant SpansCutWords(reference, spans, words, isSpace)
      invariant Split(reference, isSpace) ==
                words + Split(reference[if start.Some? then start.value else index..], isSpace)
    {
      if isSpace(reference[index]) {
        SkipSpace(reference, index, isSpace);
        if start.Some? {
          NextWord(reference, words, start.value, index, isSpace);
          CutWord(reference, spans, words, Span(start.value, index), isSpace);
          spans := spans + [Span(start.value, index)];
          words := words + [reference[start.value..index]];
          start := None;
        }
      } else {
        if start.None? {
          start := Some(index);
        }
        SpanGrows(reference, start.value, index, isSpace);
      }
    }
    if start.Some? {
      NextWord(reference, words, start.value, |reference|, isSpace);
      CutWord(reference, spans, words, Span(start.value, |reference|), isSpace);
      spans := spans + [Span(start.value, |reference|)];
      words := words + [reference[start.value..|reference|]];
    }
    NoWords(isSpace);
    assert words + [] == words;
  }

  lemma NoWords(isSpace: char -> bool)
    ensures Split("", isSpace) == []
  {
  }

  function WordRecord(refWords: seq<string>, hypWords: seq<string>, spans: seq<Span>, step: Step,
                      classify: WordClassifier): ErrorRecord
    requires StepFits(refWords, hypWords, step)
  {
    var position := if 0 <= step.ref < |spans| then spans[step.ref].start else step.ref;
    match step.kind
    case Match =>
      ErrorRecord(WordLevel, Match, "match", Some(refWords[step.ref]), Some(hypWords[step.hyp]),
                  position, None, Some(step.ref), "", false)
    case Substitution =>
      ErrorRecord(WordLevel, Substitution, classify(refWords[step.ref], hypWords[step.hyp]),
                  Some(refWords[step.ref]), Some(hypWords[step.hyp]), position, None, Some(step.ref),
                  refWords[step.ref], false)
    case Deletion =>
      ErrorRecord(WordLevel, Deletion, "missing_word", Some(refWords[step.ref]), None, position, None,
                  Some(step.ref), refWords[step.ref], false)
    case Insertion =>
      ErrorRecord(WordLevel, Insertion, "extra_word", None, Some(hypWords[step.hyp]), -1, None,
                  Some(step.hyp), hypWords[step.hyp], false)
  }

  /** A record about a reference word points at an occurrence of that word in the text. */
  ghost predicate PointsAtItsWord(reference: string, record: ErrorRecord) {
    record.gt.Some? ==>
      && 0 <= record.position <= record.position + |record.gt.value| <= |reference|
      && reference[record.position..record.position + |record.gt.value|] == record.gt.value
  }

  /** What the record of one word operation says, in terms of the words and where they stand. */
  ghost predicate WordRecordOf(refWords: seq<string>, hypWords: seq<string>, spans: seq<Span>,
                               classify: WordClassifier, step: Step, record: ErrorRecord)
  {
    && record.level == WordLevel && record.operation == step.kind && !record.normalized
    && record.predictedPosition == None
    && if step.kind == Insertion then
         && 0 <= step.hyp < |hypWords| && record.wordIndex == Some(step.hyp) && record.position == -1
         && record.gt == None && record.predicted == Some(hypWords[step.hyp])
         && record.errorType == "extra_word" && record.context == hypWords[step.hyp]
       else
         && 0 <= step.ref < |refWords| == |spans| && record.wordIndex == Some(step.ref)
         && record.position == spans[step.ref].start && record.gt == Some(refWords[step.ref])
         && record.context == (if step.kind == Match then "" else refWords[step.ref])
         && if step.kind == Deletion then record.predicted == None && record.errorType == "missing_word"
            else
              && 0 <= step.hyp < |hypWords| && record.predicted == Some(hypWords[step.hyp])
              && record.errorType == if step.kind == Match then "match"
                                     else classify(refWords[step.ref], hypWords[step.hyp])
  }

  lemma WordRecordDescribes(refWords: seq<string>, hypWords: seq<string>, spans: seq<Span>,
                            classify: WordClassifier, step: Step)
    requires StepFits(refWords, hypWords, step) && |spans| == |refWords|
    ensures WordRecordOf(refWords, hypWords, spans, classify, step,
                         WordRecord(refWords, hypWords, spans, step, classify))
  {
  }

  lemma WordRecordPoints(reference: string, refWords: seq<string>, hypWords: seq<string>, spans: seq<Span>,
                         step: Step, isSpace: char -> bool, classify: WordClassifier, record: ErrorRecord)
    requires SpansCutWords(reference, spans, refWords, isSpace)
    requires WordRecordOf(refWords, hypWords, spans, classify, step, record)
    ensures PointsAtItsWord(reference, record)
  {
    if step.kind != Insertion {
      assert IsSpan(reference, spans[step.ref], isSpace);
    }
  }

  ghost predicate WordRecordsOf(reference: string, hypothesis: string, isSpace: char -> bool, classify: WordClassifier,
                                spans: seq<Span>, records: seq<ErrorRecord>)
  {
    var refWords, hypWords := Split(reference, isSpace), Split(hypothesis, isSpace);
    var ops := Canonical(refWords, hypWords);
    && SpansCutWords(reference, spans, refWords, isSpace)
    && |records| == |ops|
    && forall k :: 0 <= k < |ops| ==> WordRecordOf(refWords, hypWords, spans, classify, ops[k], records[k])
  }

  /** Every record about a reference word points at that word in the text. */
  lemma WordRecordsPoint(reference: string, hypothesis: string, isSpace: char -> bool,
                         classify: WordClassifier, spans: seq<Span>, records: seq<ErrorRecord>)
    requires WordRecordsOf(reference, hypothesis, isSpace, classify, spans, records)
    ensures RecordsFollow(records, Canonical(Split(reference, isSpace), Split(hypothesis, isSpace)))
    ensures forall k :: 0 <= k < |records| ==> PointsAtItsWord(reference, records[k])
  {
    var refWords, hypWords := Split(reference, isSpace), Split(hypothesis, isSpace);
    var ops := Canonical(refWords, hypWords);
    forall k | 0 <= k < |records| ensures records[k].operation == ops[k].kind {
      assert WordRecordOf(refWords, hypWords, spans, classify, ops[k], records[k]);
    }
    hide Canonical, Split, SpansCutWords, WordRecordOf, PointsAtItsWord;
    forall k | 0 <= k < |records| ensures PointsAtItsWord(reference, records[k]) {
      WordRecordPoints(reference, refWords, hypWords, spans, ops[k], isSpace, classify, records[k]);
    }
  }

  method WordRecords(reference: string, hypothesis: string, isSpace: char -> bool, classify: WordClassifier)
    returns (records: seq<ErrorRecord>, spans: seq<Span>)
    ensures WordRecordsOf(reference, hypothesis, isSpace, classify, spans, records)
  {
    hide Canonical, Distance, IsScript, Cost, StepFits, WordRecord, WordRecordOf, IsSpan, Split;
    var refWords, hypWords := Split(reference, isSpace), Split(hypothesis, isSpace);
    spans := WordCharIndex(reference, isSpace);
    var ops := Align(refWords, hypWords);
    ScriptFits(refWords, hypWords, ops);
    records := [];
    for k := 0 to |ops|
      invariant |records| == k
      invariant forall r :: 0 <= r < k ==> WordRecordOf(refWords, hypWords, spans, classify, ops[r], records[r])
    {
      WordRecordDescribes(refWords, hypWords, spans, classify, ops[k]);
      records := records + [WordRecord(refWords, hypWords, spans, ops[k], classify)];
    }
  }

  // ---------- Counts ----------

  /** The error types of the records that are not matches. */
  function ErrorTypes(records: seq<ErrorRecord>): seq<string> {
    if records == [] then []
    else ErrorTypes(Init(records)) + if Last(records).operation == Match then [] else [Last(records).errorType]
  }

  method ErrorTypeCounts(records: seq<ErrorRecord>) returns (counts: map<string, nat>)
    ensures counts == TallyInto(map[], ErrorTypes(records))
  {
    counts := map[];
    for k := 0 to |records|
      invariant counts == TallyInto(map[], ErrorTypes(records[..k]))
    {
      assert Init(records[..k + 1]) == records[..k];
      if records[k].operation == Match {
        assert ErrorTypes(records[..k + 1]) == ErrorTypes(records[..k]);
        continue;
      }
      TallyOne(map[], ErrorTypes(records[..k]), records[k].errorType);
      counts := counts[records[k].errorType := Get(counts, records[k].errorType) + 1];
    }
    assert records[..|records|] == records;
  }

  /** The (ground truth, prediction) pairs of the substitutions with two non-empty sides. */
  function SubstitutedPairs(records: seq<ErrorRecord>): seq<(string, string)> {
    if records == [] then []
    else SubstitutedPairs(Init(records)) + PairOf(Last(records))
  }

  function PairOf(record: ErrorRecord): seq<(string, string)> {
    if && record.operation == Substitution
       && record.gt.Some? && record.gt.value != ""
       && record.predicted.Some? && record.predicted.value != ""
    then [(record.gt.value, record.predicted.value)]
    else []
  }

  method SubstitutionPairs(records: seq<ErrorRecord>) returns (pairs: map<(string, string), nat>)
    ensures pairs == TallyInto(map[], SubstitutedPairs(records))
  {
    hide TallyInto, SubstitutedPairs, PairOf;
    pairs := map[];
    NoPairs();
    for k := 0 to |records|
      invariant pairs == TallyInto(map[], SubstitutedPairs(records[..k]))
    {
      var record := records[k];
      PairsAppend(records[..k], record);
      assert records[..k + 1] == records[..k] + [record];
      if record.operation == Substitution && record.gt.Some? && record.gt.value != ""
         && record.predicted.Some? && record.predicted.value != "" {
        var key := (record.gt.value, record.predicted.value);
        TallyOne(map[], SubstitutedPairs(records[..k]), key);
        pairs := pairs[key := Get(pairs, key) + 1];
      }
    }
    assert records[..|records|] == records;
  }

  lemma PairsAppend(records: seq<ErrorRecord>, record: ErrorRecord)
    ensures SubstitutedPairs(records + [record])
            == if && record.operation == Substitution
                  && record.gt.Some? && record.gt.value != ""
                  && record.predicted.Some? && record.predicted.value != ""
               then SubstitutedPairs(records) + [(record.gt.value, record.predicted.value)]
               else SubstitutedPairs(records)
  {
    assert Init(records + [record]) == records && Last(records + [record]) == record;
    assert SubstitutedPairs(records) + [] == SubstitutedPairs(records);
  }

  lemma NoPairs()
    ensures TallyInto(map[], SubstitutedPairs([])) == map[]
  {
  }

  function CountKind(ops: seq<Step>, kind: Kind): nat {
    if ops == [] then 0 else CountKind(Init(ops), kind) + if Last(ops).kind == kind then 1 else 0
  }

  /** Every token of both texts is accounted for, and the error operations make up the cost. */
  lemma {:induction false} TokensConserved<T>(s: seq<T>, t: seq<T>, ops: seq<Step>)
    requires IsScript(s, t, ops)
    ensures |s| == CountKind(ops, Match) + CountKind(ops, Substitution) + CountKind(ops, Deletion)
    ensures |t| == CountKind(ops, Match) + CountKind(ops, Substitution) + CountKind(ops, Insertion)
    ensures Cost(ops) == CountKind(ops, Substitution) + CountKind(ops, Deletion) + CountKind(ops, Insertion)
    decreases |ops|
  {
    if ops == [] {
      assert |Range(|s|)| == 0 && |Range(|t|)| == 0;
    } else {
      PeelScript(s, t, ops);
      var (s', t') := Before(s, t, Last(ops));
      TokensConserved(s', t', Init(ops));
    }
  }

  lemma {:induction false} ErrorTypesCountCost(records: seq<ErrorRecord>, ops: seq<Step>)
    requires RecordsFollow(records, ops)
    ensures |ErrorTypes(records)| == Cost(ops)
    decreases |ops|
  {
    if ops == [] {
    } else {
      ErrorTypesCountCost(Init(records), Init(ops));
      assert Last(records).operation == Last(ops).kind;
    }
  }

  lemma {:induction false} PairsCountSubstitutions(reference: string, hypothesis: string, normalized: bool,
                                                   classify: CharClassifier, records: seq<ErrorRecord>, ops: seq<Step>)
    requires |records| == |ops|
    requires forall k :: 0 <= k < |ops| ==>
               CharRecordOf(reference, hypothesis, normalized, classify, ops[k], records[k])
    ensures |SubstitutedPairs(records)| == CountKind(ops, Substitution)
    decreases |ops|
  {
    if ops == [] {
    } else {
      PairsCountSubstitutions(reference, hypothesis, normalized, classify, Init(records), Init(ops));
      assert CharRecordOf(reference, hypothesis, normalized, classify, Last(ops), Last(records));
    }
  }

  /** The non-match records, in order. */
  function ErrorsOf(records: seq<ErrorRecord>): (errors: seq<ErrorRecord>)
  {
    if records == [] then []
    else ErrorsOf(Init(records)) + if Last(records).operation == Match then [] else [Last(records)]
  }

  lemma {:induction false} ErrorsCarryTheErrorTypes(records: seq<ErrorRecord>)
    ensures |ErrorsOf(records)| == |ErrorTypes(records)|
    ensures forall k :: 0 <= k < |ErrorsOf(records)| ==> ErrorsOf(records)[k].errorType == ErrorTypes(records)[k]
  {
    if records == [] {
    } else {
      ErrorsCarryTheErrorTypes(Init(records));
    }
  }

  // ---------- What the records spell ----------

  function Chars(text: string): seq<string> {
    seq(|text|, k requires 0 <= k < |text| => [text[k]])
  }

  /** The ground truths of the records, in order. */
  function Truths(records: seq<ErrorRecord>): seq<string> {
    if records == [] then []
    else Truths(Init(records)) + if Last(records).gt.Some? then [Last(records).gt.value] else []
  }

  /** The predictions of the records, in order. */
  function Predictions(records: seq<ErrorRecord>): seq<string> {
    if records == [] then []
    else Predictions(Init(records)) + if Last(records).predicted.Some? then [Last(records).predicted.value] else []
  }

  /** The record quotes the one token of the reference and the one of the hypothesis. */
  ghost predicate QuotesTokens(s: seq<string>, t: seq<string>, step: Step, record: ErrorRecord) {
    && (if step.kind == Insertion then record.gt == None
        else 0 <= step.ref < |s| && record.gt == Some(s[step.ref]))
    && (if step.kind == Deletion then record.predicted == None
        else 0 <= step.hyp < |t| && record.predicted == Some(t[step.hyp]))
  }

  lemma SpellOneMore(records: seq<ErrorRecord>)
    requires records != []
    ensures var r := Last(records);
            && Truths(records) == (if r.gt.Some? then Truths(Init(records)) + [r.gt.value] else Truths(Init(records)))
            && Predictions(records) == (if r.predicted.Some? then Predictions(Init(records)) + [r.predicted.value]
                                        else Predictions(Init(records)))
    ensures Truths([]) == [] && Predictions([]) == []
  {
  }

  lemma QuotesBefore(s: seq<string>, t: seq<string>, ops: seq<Step>, records: seq<ErrorRecord>)
    requires ops != [] && IsScript(s, t, ops) && |records| == |ops|
    requires forall k :: 0 <= k < |ops| ==> QuotesTokens(s, t, ops[k], records[k])
    ensures Last(ops).kind != Insertion ==> s != [] && Last(records).gt == Some(Last(s)) && s == Init(s) + [Last(s)]
    ensures Last(ops).kind == Insertion ==> Last(records).gt == None
    ensures Last(ops).kind != Deletion ==>
              t != [] && Last(records).predicted == Some(Last(t)) && t == Init(t) + [Last(t)]
    ensures Last(ops).kind == Deletion ==> Last(records).predicted == None
    ensures var (s', t') := Before(s, t, Last(ops));
            && IsScript(s', t', Init(ops))
            && forall k :: 0 <= k < |ops| - 1 ==> QuotesTokens(s', t', Init(ops)[k], Init(records)[k])
  {
    PeelScript(s, t, ops);
    assert QuotesTokens(s, t, ops[|ops| - 1], records[|ops| - 1]);
    var (s', t') := Before(s, t, Last(ops));
    forall k | 0 <= k < |ops| - 1 ensures QuotesTokens(s', t', Init(ops)[k], Init(records)[k]) {
      assert StepFits(s', t', Init(ops)[k]);
      assert QuotesTokens(s, t, ops[k], records[k]);
    }
  }

  /** Records that follow a script quote the whole reference and the whole hypothesis. */
  lemma {:induction false} RecordsSpell(s: seq<string>, t: seq<string>, ops: seq<Step>, records: seq<ErrorRecord>)
    requires IsScript(s, t, ops) && |records| == |ops|
    requires forall k :: 0 <= k < |ops| ==> QuotesTokens(s, t, ops[k], records[k])
    ensures Truths(records) == s && Predictions(records) == t
    decreases |ops|
  {
    if ops == [] {
      assert |Range(|s|)| == 0 && |Range(|t|)| == 0;
    } else {
      QuotesBefore(s, t, ops, records);
      SpellOneMore(records);
      var (s', t') := Before(s, t, Last(ops));
      hide IsScript, QuotesTokens, Truths, Predictions, StepFits;
      RecordsSpell(s', t', Init(ops), Init(records));
    }
  }

  lemma ScriptOfChars(s: string, t: string, ops: seq<Step>)
    requires IsScript(s, t, ops)
    ensures IsScript(Chars(s), Chars(t), ops)
  {
    forall k | 0 <= k < |ops| ensures StepFits(Chars(s), Chars(t), ops[k]) {
      assert StepFits(s, t, ops[k]);
    }
  }

  lemma QuotesChars(reference: string, hypothesis: string, normalized: bool, classify: CharClassifier,
                    step: Step, record: ErrorRecord)
    requires CharRecordOf(reference, hypothesis, normalized, classify, step, record)
    ensures QuotesTokens(Chars(reference), Chars(hypothesis), step, record)
  {
    hide Surrounds;
  }

  /** The character records spell the two texts. */
  lemma CharRecordsSpell(reference: string, hypothesis: string, normalized: bool, classify: CharClassifier,
                         records: seq<ErrorRecord>)
    requires CharRecordsOf(reference, hypothesis, normalized, classify, records)
    ensures Truths(records) == Chars(reference) && Predictions(records) == Chars(hypothesis)
  {
    var ops := Canonical(reference, hypothesis);
    CanonicalIsOptimal(reference, hypothesis);
    hide Canonical, IsScript, Cost, Distance, CharRecordOf, QuotesTokens;
    ScriptOfChars(reference, hypothesis, ops);
    forall k | 0 <= k < |ops| ensures QuotesTokens(Chars(reference), Chars(hypothesis), ops[k], records[k]) {
      QuotesChars(reference, hypothesis, normalized, classify, ops[k], records[k]);
    }
    hide *;
    RecordsSpell(Chars(reference), Chars(hypothesis), ops, records);
  }

  /** The word records spell the words of the two texts. */
  lemma WordRecordsSpell(reference: string, hypothesis: string, isSpace: char -> bool, classify: WordClassifier,
                         spans: seq<Span>, records: seq<ErrorRecord>)
    requires WordRecordsOf(reference, hypothesis, isSpace, classify, spans, records)
    ensures Truths(records) == Split(reference, isSpace) && Predictions(records) == Split(hypothesis, isSpace)
  {
    hide Split, Canonical, SpansCutWords;
    var s, t := Split(reference, isSpace), Split(hypothesis, isSpace);
    var ops := Canonical(s, t);
    CanonicalIsOptimal(s, t);
    forall k | 0 <= k < |ops| ensures QuotesTokens(s, t, ops[k], records[k]) {
      assert WordRecordOf(s, t, spans, classify, ops[k], records[k]);
    }
    hide *;
    RecordsSpell(s, t, ops, records);
  }

  // ---------- What the counts count ----------

  /** The records of errors of one type. */
  ghost function OfType(records: seq<ErrorRecord>, errorType: string): set<int> {
    set k | 0 <= k < |records| && records[k].operation != Match && records[k].errorType == errorType
  }

  lemma OfTypeOneMore(records: seq<ErrorRecord>, errorType: string)
    requires records != []
    ensures |OfType(records, errorType)| == |OfType(Init(records), errorType)| +
            if Last(records).operation != Match && Last(records).errorType == errorType then 1 else 0
  {
    var n := |records| - 1;
    var before := OfType(Init(records), errorType);
    assert OfType(records, errorType) ==
           if records[n].operation != Match && records[n].errorType == errorType then before + {n} else before;
  }

  lemma ErrorTypesOneMore(records: seq<ErrorRecord>, errorType: string)
    requires records != []
    ensures multiset(ErrorTypes(records))[errorType] == multiset(ErrorTypes(Init(records)))[errorType] +
            if Last(records).operation != Match && Last(records).errorType == errorType then 1 else 0
  {
  }

  lemma {:induction false} ErrorTypesCounted(records: seq<ErrorRecord>, errorType: string)
    ensures multiset(ErrorTypes(records))[errorType] == |OfType(records, errorType)|
  {
    if records == [] {
      assert OfType(records, errorType) == {};
    } else {
      hide *;
      ErrorTypesCounted(Init(records), errorType);
      OfTypeOneMore(records, errorType);
      ErrorTypesOneMore(records, errorType);
    }
  }

  /** The operations that replace g by p. */
  ghost function Replacements(reference: string, hypothesis: string, ops: seq<Step>, g: string, p: string): set<int> {
    set k | 0 <= k < |ops| && Replaces(reference, hypothesis, ops[k], g, p)
  }

  ghost predicate Replaces(reference: string, hypothesis: string, step: Step, g: string, p: string) {
    && step.kind == Substitution
    && 0 <= step.ref < |reference| && g == [reference[step.ref]]
    && 0 <= step.hyp < |hypothesis| && p == [hypothesis[step.hyp]]
  }

  lemma ReplacementsOneMore(reference: string, hypothesis: string, ops: seq<Step>, g: string, p: string)
    requires ops != []
    ensures |Replacements(reference, hypothesis, ops, g, p)| == |Replacements(reference, hypothesis, Init(ops), g, p)| +
            if Replaces(reference, hypothesis, Last(ops), g, p) then 1 else 0
  {
    var n := |ops| - 1;
    var before := Replacements(reference, hypothesis, Init(ops), g, p);
    assert Replacements(reference, hypothesis, ops, g, p) ==
           if Replaces(reference, hypothesis, ops[n], g, p) then before + {n} else before;
  }

  lemma PairsOneMore(records: seq<ErrorRecord>, pair: (string, string))
    requires records != []
    ensures multiset(SubstitutedPairs(records))[pair] ==
            multiset(SubstitutedPairs(Init(records)))[pair] + multiset(PairOf(Last(records)))[pair]
  {
  }

  lemma PairQuoted(reference: string, hypothesis: string, step: Step, record: ErrorRecord, g: string, p: string)
    requires record.operation == step.kind && Quotes(reference, hypothesis, step, record)
    ensures multiset(PairOf(record))[(g, p)] == if Replaces(reference, hypothesis, step, g, p) then 1 else 0
  {
  }

  lemma {:induction false} PairsCounted(reference: string, hypothesis: string, ops: seq<Step>,
                                        records: seq<ErrorRecord>, g: string, p: string)
    requires |records| == |ops|
    requires forall k :: 0 <= k < |ops| ==>
               records[k].operation == ops[k].kind && Quotes(reference, hypothesis, ops[k], records[k])
    ensures multiset(SubstitutedPairs(records))[(g, p)] == |Replacements(reference, hypothesis, ops, g, p)|
    decreases |ops|
  {
    if ops == [] {
      assert Replacements(reference, hypothesis, ops, g, p) == {};
    } else {
      hide Quotes, SubstitutedPairs, Replacements, PairOf, Replaces;
      PairsCounted(reference, hypothesis, Init(ops), Init(records), g, p);
      ReplacementsOneMore(reference, hypothesis, ops, g, p);
      PairsOneMore(records, (g, p));
      PairQuoted(reference, hypothesis, Last(ops), Last(records), g, p);
    }
  }

  /** The dictionary of pairs holds, for every g and p, how often the alignment puts p where the
      reference has g. */
  lemma SubstitutionsCounted(reference: string, hypothesis: string, normalized: bool, classify: CharClassifier,
                             records: seq<ErrorRecord>, g: string, p: string)
    requires CharRecordsOf(reference, hypothesis, normalized, classify, records)
    ensures Get(TallyInto(map[], SubstitutedPairs(records)), (g, p)) ==
            |Replacements(reference, hypothesis, Canonical(reference, hypothesis), g, p)|
  {
    var ops := Canonical(reference, hypothesis);
    hide Canonical;
    forall k | 0 <= k < |ops|
      ensures records[k].operation == ops[k].kind && Quotes(reference, hypothesis, ops[k], records[k])
    {
      assert CharRecordOf(reference, hypothesis, normalized, classify, ops[k], records[k]);
    }
    hide Replacements, SubstitutedPairs, TallyInto, Quotes;
    PairsCounted(reference, hypothesis, ops, records, g, p);
    TallyCountsOccurrences(map[], SubstitutedPairs(records), (g, p));
  }

  /** The dictionary of error types counts the errors of both levels. */
  lemma TypesCounted(charRecords: seq<ErrorRecord>, wordRecords: seq<ErrorRecord>, errorType: string)
    ensures Get(TallyInto(map[], ErrorTypes(charRecords) + ErrorTypes(wordRecords)), errorType) ==
            |OfType(charRecords, errorType)| + |OfType(wordRecords, errorType)|
  {
    hide ErrorTypes, TallyInto, OfType;
    var keys := ErrorTypes(charRecords) + ErrorTypes(wordRecords);
    TallyCountsOccurrences(map[], keys, errorType);
    ErrorTypesCounted(charRecords, errorType);
    ErrorTypesCounted(wordRecords, errorType);
    assert multiset(keys) == multiset(ErrorTypes(charRecords)) + multiset(ErrorTypes(wordRecords));
  }

  datatype Analysis = Analysis(
    cerErrors: nat,
    werErrors: nat,
    exactMatch: bool,
    charRecords: seq<ErrorRecord>,
    wordRecords: seq<ErrorRecord>,
    errorTypeCounts: map<string, nat>,
    substitutions: map<(string, string), nat>,
    wordErrorCount: nat,
    charErrorCount: nat)

  lemma RecordsCountDistance<T>(records: seq<ErrorRecord>, s: seq<T>, t: seq<T>)
    requires RecordsFollow(records, Canonical(s, t))
    ensures |ErrorsOf(records)| == |ErrorTypes(records)| == Distance(s, t)
    ensures |ErrorTypes(records)| == 0 <==> s == t
  {
    hide Distance;
    CanonicalIsOptimal(s, t);
    ErrorTypesCountCost(records, Canonical(s, t));
    ErrorsCarryTheErrorTypes(records);
    DistanceZeroIffEqual(s, t);
  }

  lemma PairsSum(reference: string, hypothesis: string, classify: CharClassifier,
                 records: seq<ErrorRecord>)
    requires CharRecordsOf(reference, hypothesis, false, classify, records)
    ensures Sum(TallyInto(map[], SubstitutedPairs(records)))
            == CountKind(Canonical(reference, hypothesis), Substitution)
  {
    hide Distance;
    PairsCountSubstitutions(reference, hypothesis, false, classify, records, Canonical(reference, hypothesis));
    TallySum(map[], SubstitutedPairs(records));
  }

  /** Folds the error types of `errors` into the dictionary of counts. */
  method FoldErrors(counts: map<string, nat>, records: seq<ErrorRecord>) returns (folded: map<string, nat>)
    ensures folded == TallyInto(counts, ErrorTypes(records))
  {
    var errors := ErrorsOf(records);
    ErrorsCarryTheErrorTypes(records);
    ghost var types := ErrorTypes(records);
    folded := counts;
    for k := 0 to |errors|
      invariant folded == TallyInto(counts, types[..k])
    {
      TallyOne(counts, types[..k], types[k]);
      assert types[..k + 1] == types[..k] + [types[k]];
      folded := folded[errors[k].errorType := Get(folded, errors[k].errorType) + 1];
    }
    assert types[..|errors|] == types;
  }

  /** The counting half of the analysis of one sample.  `cerErrors` and `werErrors` are the
      numerators of CER and WER, which the source computes with its own rolling-row distance. */
  method AnalyzeSample(reference: string, hypothesis: string, isSpace: char -> bool,
                       classifyChar: CharClassifier, classifyWord: WordClassifier)
    returns (a: Analysis)
    ensures Sum(a.errorTypeCounts) == a.charErrorCount + a.wordErrorCount
    ensures a.charErrorCount == a.cerErrors == Distance(reference, hypothesis)
    ensures a.wordErrorCount == a.werErrors == Distance(Split(reference, isSpace), Split(hypothesis, isSpace))
    ensures Sum(a.substitutions) == CountKind(Canonical(reference, hypothesis), Substitution)
    ensures a.exactMatch <==> a.charErrorCount == 0
    ensures a.exactMatch ==> a.wordErrorCount == 0
    ensures a.errorTypeCounts == TallyInto(map[], ErrorTypes(a.charRecords) + ErrorTypes(a.wordRecords))
    ensures a.substitutions == TallyInto(map[], SubstitutedPairs(a.charRecords))
    ensures CharRecordsOf(reference, hypothesis, false, classifyChar, a.charRecords)
    ensures exists spans :: WordRecordsOf(reference, hypothesis, isSpace, classifyWord, spans, a.wordRecords)
    ensures forall k :: 0 <= k < |a.wordRecords| ==> PointsAtItsWord(reference, a.wordRecords[k])
    ensures Truths(a.charRecords) == Chars(reference) && Predictions(a.charRecords) == Chars(hypothesis)
    ensures Truths(a.wordRecords) == Split(reference, isSpace)
    ensures Predictions(a.wordRecords) == Split(hypothesis, isSpace)
    ensures forall t :: Get(a.errorTypeCounts, t) == |OfType(a.charRecords, t)| + |OfType(a.wordRecords, t)|
    ensures forall g, p :: Get(a.substitutions, (g, p)) ==
                           |Replacements(reference, hypothesis, Canonical(reference, hypothesis), g, p)|
  {
    hide Truths, Predictions, OfType, Replacements, Chars, Get;
    hide Distance, Canonical, Split, Sum, TallyInto, ErrorTypes, ErrorsOf, CharRecordsOf, WordRecordsOf,
         PointsAtItsWord, RecordsFollow, SubstitutedPairs;
    var charRecords := CharRecords(reference, hypothesis, false, classifyChar);
    CharRecordsFollow(reference, hypothesis, false, classifyChar, charRecords);
    var wordRecords, spans := WordRecords(reference, hypothesis, isSpace, classifyWord);
    WordRecordsPoint(reference, hypothesis, isSpace, classifyWord, spans, wordRecords);
    RecordsCountDistance(charRecords, reference, hypothesis);
    RecordsCountDistance(wordRecords, Split(reference, isSpace), Split(hypothesis, isSpace));
    var charCounts := ErrorTypeCounts(charRecords);
    var counts := FoldErrors(charCounts, wordRecords);
    TallyAppend(map[], ErrorTypes(charRecords), ErrorTypes(wordRecords));
    TallySum(map[], ErrorTypes(charRecords) + ErrorTypes(wordRecords));
    EmptySum();
    var substitutions := SubstitutionPairs(charRecords);
    PairsSum(reference, hypothesis, classifyChar, charRecords);
    CharRecordsSpell(reference, hypothesis, false, classifyChar, charRecords);
    WordRecordsSpell(reference, hypothesis, isSpace, classifyWord, spans, wordRecords);
    forall t ensures Get(counts, t) == |OfType(charRecords, t)| + |OfType(wordRecords, t)| {
      TypesCounted(charRecords, wordRecords, t);
    }
    forall g, p
      ensures Get(substitutions, (g, p)) ==
              |Replacements(reference, hypothesis, Canonical(reference, hypothesis), g, p)|
    {
      SubstitutionsCounted(reference, hypothesis, false, classifyChar, charRecords, g, p);
    }
    var cerErrors := TwoRows(reference, hypothesis);
    var werErrors := TwoRows(Split(reference, isSpace), Split(hypothesis, isSpace));
    a := Analysis(cerErrors, werErrors, reference == hypothesis, charRecords, wordRecords, counts, substitutions,
                  |ErrorsOf(wordRecords)|, |ErrorsOf(charRecords)|);
  }

  lemma EmptySum()
    ensures Sum<string>(map[]) == 0
  {
  }
}
