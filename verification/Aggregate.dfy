/** The aggregate verdict over three restarts: `compare_three_restarts` and `validate_aggregate_commit`
    of `stage2_control.py`, and `derive_aggregate_validation_result` of `stage2_experiment.py`. */
module Aggregate {
  import opened Prelude
  import opened Sorting

  type Identity = string

  datatype Semantics = Semantics(
    caseId: string, sentPrompt: seq<nat>, returnedPrompt: seq<nat>, output: seq<nat>, finish: string,
    promptTokens: nat, completionTokens: nat, totalTokens: nat, textDigest: Identity)

  datatype RestartRecord = RestartRecord(repetition: int, manifest: Identity, semantics: Semantics, replacement: bool)

  datatype Field =
    | CaseIdField | SentPromptField | ReturnedPromptField | OutputField | FinishField
    | PromptTokensField | CompletionTokensField | TotalTokensField | TextField

  const FIELDS: seq<Field> :=
    [CaseIdField, SentPromptField, ReturnedPromptField, OutputField, FinishField,
     PromptTokensField, CompletionTokensField, TotalTokensField, TextField]

  predicate Agree(f: Field, a: Semantics, b: Semantics) {
    match f
    case CaseIdField => a.caseId == b.caseId
    case SentPromptField => a.sentPrompt == b.sentPrompt
    case ReturnedPromptField => a.returnedPrompt == b.returnedPrompt
    case OutputField => a.output == b.output
    case FinishField => a.finish == b.finish
    case PromptTokensField => a.promptTokens == b.promptTokens
    case CompletionTokensField => a.completionTokens == b.completionTokens
    case TotalTokensField => a.totalTokens == b.totalTokens
    case TextField => a.textDigest == b.textDigest
  }

  datatype Mismatch = Mismatch(repetition: int, field: Field)
  datatype RestartComparison = RestartComparison(caseId: string, committed: bool, mismatches: seq<Mismatch>)

  // ---------------------------------------------------------------- three restarts of one case

  function MismatchesOf(candidate: RestartRecord, baseline: RestartRecord, fields: seq<Field>): seq<Mismatch> {
    if fields == [] then []
    else (if Agree(fields[0], candidate.semantics, baseline.semantics) then []
      else [Mismatch(candidate.repetition, fields[0])])
         + MismatchesOf(candidate, baseline, fields[1..])
  }

  function ByRepetition(r: RestartRecord): real {
    r.repetition as real
  }

  /** Three records with indexes one, two and three, in any order, none of them a replacement. */
  predicate AreThreeRestarts(records: seq<RestartRecord>) {
    && |records| == 3
    && (set i | 0 <= i < |records| :: records[i].repetition) == {1, 2, 3}
    && forall i :: 0 <= i < |records| ==> !records[i].replacement
  }

  function CompareThreeRestarts(records: seq<RestartRecord>): Result<RestartComparison> {
    if !AreThreeRestarts(records) then Raised
    else
      SortedKeeps(ByRepetition, records);
      var ordered := Sorted(ByRepetition, records);
      var mismatches := MismatchesOf(ordered[1], ordered[0], FIELDS) + MismatchesOf(ordered[2], ordered[0], FIELDS);
      Returned(RestartComparison(ordered[0].semantics.caseId, mismatches == [], mismatches))
  }

  lemma {:induction false} NoMismatches(candidate: RestartRecord, baseline: RestartRecord, fields: seq<Field>)
    ensures MismatchesOf(candidate, baseline, fields) == []
            <==> forall k :: 0 <= k < |fields| ==> Agree(fields[k], candidate.semantics, baseline.semantics)
  {
    if fields != [] {
      NoMismatches(candidate, baseline, fields[1..]);
      assert forall k :: 0 < k < |fields| ==> fields[k] == fields[1..][k - 1];
    }
  }

  /** Agreement on all nine fields is equality of everything a record says about its case. */
  lemma NineFieldsAreAll(a: Semantics, b: Semantics)
    ensures (forall k :: 0 <= k < |FIELDS| ==> Agree(FIELDS[k], a, b)) <==> a == b
  {
    if forall k :: 0 <= k < |FIELDS| ==> Agree(FIELDS[k], a, b) {
      assert Agree(FIELDS[0], a, b) && Agree(FIELDS[1], a, b) && Agree(FIELDS[2], a, b);
      assert Agree(FIELDS[3], a, b) && Agree(FIELDS[4], a, b) && Agree(FIELDS[5], a, b);
      assert Agree(FIELDS[6], a, b) && Agree(FIELDS[7], a, b) && Agree(FIELDS[8], a, b);
    }
  }

  predicate AllAgree(records: seq<RestartRecord>) {
    forall i, j :: 0 <= i < j < |records| ==> records[i].semantics == records[j].semantics
  }

  /** The comparison passes exactly when the three records say the same, and it has mismatches exactly
      when it does not pass. */
  lemma ComparisonPassesExactly(records: seq<RestartRecord>)
    ensures CompareThreeRestarts(records).Returned? <==> AreThreeRestarts(records)
    ensures CompareThreeRestarts(records).Returned?
            <==> && |records| == 3 && (forall i :: 0 <= i < 3 ==> !records[i].replacement)
                 && HasRepetition(records, 1) && HasRepetition(records, 2) && HasRepetition(records, 3)
    ensures AreThreeRestarts(records) ==> (CompareThreeRestarts(records).value.committed <==> AllAgree(records))
    ensures AreThreeRestarts(records) ==> (CompareThreeRestarts(records).value.mismatches == [] <==> AllAgree(records))
  {
    ThreeRepetitions(records);
    if AreThreeRestarts(records) {
      SortedKeeps(ByRepetition, records);
      var ordered := Sorted(ByRepetition, records);
      MismatchesExactly(ordered[1], ordered[0]);
      MismatchesExactly(ordered[2], ordered[0]);
      ConcatEmpty(MismatchesOf(ordered[1], ordered[0], FIELDS), MismatchesOf(ordered[2], ordered[0], FIELDS));
      AgreeInAnyOrder(records, ordered);
      AgreeInAnyOrder(ordered, records);
      assert AllAgree(ordered)
             <==> ordered[1].semantics == ordered[0].semantics && ordered[2].semantics == ordered[0].semantics;
    }
  }

  lemma ThreeRepetitions(records: seq<RestartRecord>)
    ensures AreThreeRestarts(records)
            <==> && |records| == 3 && (forall i :: 0 <= i < 3 ==> !records[i].replacement)
                 && HasRepetition(records, 1) && HasRepetition(records, 2) && HasRepetition(records, 3)
  {
    if |records| == 3 {
      var these := set i | 0 <= i < |records| :: records[i].repetition;
      assert these == {records[0].repetition, records[1].repetition, records[2].repetition};
      assert forall n :: HasRepetition(records, n) <==> n in these;
      OneToThree(these, records[0].repetition, records[1].repetition, records[2].repetition);
    }
  }

  predicate HasRepetition(records: seq<RestartRecord>, n: int) {
    exists i :: 0 <= i < |records| && records[i].repetition == n
  }

  lemma OneToThree(these: set<int>, a: int, b: int, c: int)
    requires these == {a, b, c}
    ensures these == {1, 2, 3} <==> 1 in these && 2 in these && 3 in these
  {
  }

  lemma MismatchesExactly(candidate: RestartRecord, baseline: RestartRecord)
    ensures MismatchesOf(candidate, baseline, FIELDS) == [] <==> candidate.semantics == baseline.semantics
  {
    NoMismatches(candidate, baseline, FIELDS);
    NineFieldsAreAll(candidate.semantics, baseline.semantics);
  }

  lemma ConcatEmpty<T>(a: seq<T>, b: seq<T>)
    ensures a + b == [] <==> a == [] && b == []
  {
    if a + b == [] {
      assert |a + b| == 0;
    }
  }

  lemma AgreeInAnyOrder(a: seq<RestartRecord>, b: seq<RestartRecord>)
    requires multiset(a) == multiset(b)
    ensures AllAgree(a) ==> AllAgree(b)
  {
    forall i, j | AllAgree(a) && 0 <= i < j < |b| ensures b[i].semantics == b[j].semantics {
      assert b[i] in multiset(a) && b[j] in multiset(a);
      var m :| 0 <= m < |a| && a[m] == b[i];
      var n :| 0 <= n < |a| && a[n] == b[j];
    }
  }

  /** The order of the records does not matter. */
  lemma ComparisonIgnoresOrder(a: seq<RestartRecord>, b: seq<RestartRecord>)
    requires multiset(a) == multiset(b)
    ensures CompareThreeRestarts(a) == CompareThreeRestarts(b)
  {
    RestartsInAnyOrder(a, b);
    RestartsInAnyOrder(b, a);
    if AreThreeRestarts(a) {
      RestartsAreTold(a);
      SortedIgnoresOrder(ByRepetition, a, b);
    }
  }

  lemma RestartsAreTold(a: seq<RestartRecord>)
    requires AreThreeRestarts(a)
    ensures forall x, y :: x in a && y in a && ByRepetition(x) == ByRepetition(y) ==> x == y
  {
    var indexes := set i | 0 <= i < |a| :: a[i].repetition;
    assert indexes == {a[0].repetition, a[1].repetition, a[2].repetition};
    assert 1 in indexes && 2 in indexes && 3 in indexes;
  }

  lemma RestartsInAnyOrder(a: seq<RestartRecord>, b: seq<RestartRecord>)
    requires multiset(a) == multiset(b)
    ensures AreThreeRestarts(a) ==> AreThreeRestarts(b)
  {
    if AreThreeRestarts(a) {
      RestartsReordered(a, b);
    }
  }

  lemma RestartsReordered(a: seq<RestartRecord>, b: seq<RestartRecord>)
    requires multiset(a) == multiset(b) && AreThreeRestarts(a)
    ensures AreThreeRestarts(b)
  {
    assert |multiset(a)| == |multiset(b)|;
    var these, those := set i | 0 <= i < |a| :: a[i].repetition, set i | 0 <= i < |b| :: b[i].repetition;
    forall i | 0 <= i < |b| ensures b[i].repetition in these && !b[i].replacement {
      assert b[i] in multiset(a);
      var m :| 0 <= m < |a| && a[m] == b[i];
    }
    forall n | n in these ensures n in those {
      var i :| 0 <= i < |a| && a[i].repetition == n;
      assert a[i] in multiset(b);
      var m :| 0 <= m < |b| && b[m] == a[i];
    }
    assert these == those;
  }

  // ---------------------------------------------------------------- which mismatches are named

  /** Two cases are the same in a field: putting the one's value into the other changes nothing. */
  predicate SameIn(f: Field, a: Semantics, b: Semantics) {
    match f
    case CaseIdField => a.(caseId := b.caseId) == a
    case SentPromptField => a.(sentPrompt := b.sentPrompt) == a
    case ReturnedPromptField => a.(returnedPrompt := b.returnedPrompt) == a
    case OutputField => a.(output := b.output) == a
    case FinishField => a.(finish := b.finish) == a
    case PromptTokensField => a.(promptTokens := b.promptTokens) == a
    case CompletionTokensField => a.(completionTokens := b.completionTokens) == a
    case TotalTokensField => a.(totalTokens := b.totalTokens) == a
    case TextField => a.(textDigest := b.textDigest) == a
  }

  /** The place of a field in a comparison. */
  function Rank(f: Field): nat {
    match f
    case CaseIdField => 0
    case SentPromptField => 1
    case ReturnedPromptField => 2
    case OutputField => 3
    case FinishField => 4
    case PromptTokensField => 5
    case CompletionTokensField => 6
    case TotalTokensField => 7
    case TextField => 8
  }

  lemma FieldAt(k: nat)
    requires k < 9
    ensures Rank(FIELDS[k]) == k && FIELDS[k..] == [FIELDS[k]] + FIELDS[k + 1..]
    ensures forall f: Field :: Rank(f) == k ==> f == FIELDS[k]
  {
  }

  /** The mismatches of one restart: each field in which it differs, once and in order. */
  predicate NamesFrom(found: seq<Mismatch>, candidate: RestartRecord, baseline: RestartRecord, k: nat) {
    && (forall i :: 0 <= i < |found| ==>
          && found[i].repetition == candidate.repetition && Rank(found[i].field) >= k
          && !SameIn(found[i].field, candidate.semantics, baseline.semantics))
    && (forall f: Field :: Rank(f) >= k && !SameIn(f, candidate.semantics, baseline.semantics) ==>
          Mismatch(candidate.repetition, f) in found)
    && forall i, j :: 0 <= i < j < |found| ==> Rank(found[i].field) < Rank(found[j].field)
  }

  lemma {:induction false} MismatchesNameFields(candidate: RestartRecord, baseline: RestartRecord, k: nat)
    requires k <= 9
    ensures NamesFrom(MismatchesOf(candidate, baseline, FIELDS[k..]), candidate, baseline, k)
    decreases 9 - k
  {
    if k < 9 {
      MismatchesNameFields(candidate, baseline, k + 1);
      FieldAt(k);
      OneMoreField(candidate, baseline, k);
      NamesCons(MismatchesOf(candidate, baseline, FIELDS[k + 1..]), candidate, baseline, k);
    }
  }

  lemma OneMoreField(candidate: RestartRecord, baseline: RestartRecord, k: nat)
    requires k < 9
    ensures MismatchesOf(candidate, baseline, FIELDS[k..])
            == (if SameIn(FIELDS[k], candidate.semantics, baseline.semantics) then []
                else [Mismatch(candidate.repetition, FIELDS[k])])
               + MismatchesOf(candidate, baseline, FIELDS[k + 1..])
  {
    AgreesExactly(FIELDS[k], candidate.semantics, baseline.semantics);
    assert FIELDS[k..][0] == FIELDS[k] && FIELDS[k..][1..] == FIELDS[k + 1..];
  }

  lemma AgreesExactly(f: Field, a: Semantics, b: Semantics)
    ensures Agree(f, a, b) <==> SameIn(f, a, b)
  {
  }

  lemma NamesCons(rest: seq<Mismatch>, candidate: RestartRecord, baseline: RestartRecord, k: nat)
    requires k < 9 && NamesFrom(rest, candidate, baseline, k + 1)
    ensures var here := if SameIn(FIELDS[k], candidate.semantics, baseline.semantics) then []
                        else [Mismatch(candidate.repetition, FIELDS[k])];
            NamesFrom(here + rest, candidate, baseline, k)
  {
    FieldAt(k);
  }

  /** In order of repetition the three restarts are the first, the second and the third. */
  lemma OrderedRestarts(records: seq<RestartRecord>, one: RestartRecord, two: RestartRecord, three: RestartRecord)
    requires AreThreeRestarts(records) && one in records && two in records && three in records
    requires one.repetition == 1 && two.repetition == 2 && three.repetition == 3
    ensures Sorted(ByRepetition, records) == [one, two, three]
  {
    SortedIsOrdered(ByRepetition, records);
    RestartsAreTold(records);
    ThreeAreAll(records, one, two, three);
    ThreeInOrder(Sorted(ByRepetition, records), records, one, two, three);
  }

  lemma ThreeInOrder(
    ordered: seq<RestartRecord>, records: seq<RestartRecord>, one: RestartRecord, two: RestartRecord,
    three: RestartRecord)
    requires Ordered(ByRepetition, ordered) && multiset(ordered) == multiset(records) == multiset{one, two, three}
    requires one.repetition == 1 && two.repetition == 2 && three.repetition == 3
    requires forall x, y :: x in records && y in records && ByRepetition(x) == ByRepetition(y) ==> x == y
    ensures ordered == [one, two, three]
  {
    forall x | x in ordered ensures x in records {
      assert x in multiset(records);
    }
    OrderIsUnique(ByRepetition, ordered, [one, two, three]);
  }

  lemma ThreeAreAll(records: seq<RestartRecord>, one: RestartRecord, two: RestartRecord, three: RestartRecord)
    requires |records| == 3 && one in records && two in records && three in records
    requires one.repetition == 1 && two.repetition == 2 && three.repetition == 3
    ensures multiset(records) == multiset{one, two, three}
  {
    assert records == [records[0], records[1], records[2]];
    var i :| 0 <= i < 3 && records[i] == one;
    var j :| 0 <= j < 3 && records[j] == two;
    var k :| 0 <= k < 3 && records[k] == three;
    assert i != j && j != k && i != k;
  }

  /** The comparison names, restart by restart and field by field, exactly where the second and the third
      differ from the first, whose case it bears. */
  lemma MismatchesAreNamed(records: seq<RestartRecord>, one: RestartRecord, two: RestartRecord, three: RestartRecord)
    requires AreThreeRestarts(records) && one in records && two in records && three in records
    requires one.repetition == 1 && two.repetition == 2 && three.repetition == 3
    ensures CompareThreeRestarts(records).Returned?
    ensures var c := CompareThreeRestarts(records).value;
            && c.caseId == one.semantics.caseId && (c.committed <==> c.mismatches == [])
            && (forall m :: m in c.mismatches
                  <==> || (m.repetition == 2 && !SameIn(m.field, two.semantics, one.semantics))
                       || (m.repetition == 3 && !SameIn(m.field, three.semantics, one.semantics)))
            && forall i, j :: 0 <= i < j < |c.mismatches| ==>
                 || c.mismatches[i].repetition < c.mismatches[j].repetition
                 || (c.mismatches[i].repetition == c.mismatches[j].repetition
                     && Rank(c.mismatches[i].field) < Rank(c.mismatches[j].field))
  {
    OrderedRestarts(records, one, two, three);
    MismatchesNameFields(two, one, 0);
    MismatchesNameFields(three, one, 0);
    assert FIELDS[0..] == FIELDS;
    BothNamed(MismatchesOf(two, one, FIELDS), MismatchesOf(three, one, FIELDS), one, two, three);
  }

  lemma BothNamed(
    second: seq<Mismatch>, third: seq<Mismatch>, one: RestartRecord, two: RestartRecord, three: RestartRecord)
    requires two.repetition == 2 && three.repetition == 3
    requires NamesFrom(second, two, one, 0) && NamesFrom(third, three, one, 0)
    ensures forall m :: m in second + third
                 <==> || (m.repetition == 2 && !SameIn(m.field, two.semantics, one.semantics))
                      || (m.repetition == 3 && !SameIn(m.field, three.semantics, one.semantics))
    ensures var all := second + third;
            forall i, j :: 0 <= i < j < |all| ==>
              || all[i].repetition < all[j].repetition
              || (all[i].repetition == all[j].repetition && Rank(all[i].field) < Rank(all[j].field))
  {
    forall m | m in second + third
      ensures || (m.repetition == 2 && !SameIn(m.field, two.semantics, one.semantics))
              || (m.repetition == 3 && !SameIn(m.field, three.semantics, one.semantics))
    {
      var i :| 0 <= i < |second + third| && (second + third)[i] == m;
      if i < |second| {
        assert second[i] == m;
      } else {
        assert third[i - |second|] == m;
      }
    }
    forall m: Mismatch | m.repetition == 2 && !SameIn(m.field, two.semantics, one.semantics)
      ensures m in second + third
    {
      assert Mismatch(two.repetition, m.field) == m && m in second;
    }
    forall m: Mismatch | m.repetition == 3 && !SameIn(m.field, three.semantics, one.semantics)
      ensures m in second + third
    {
      assert Mismatch(three.repetition, m.field) == m && m in third;
    }
  }

  // ---------------------------------------------------------------- the aggregate commit

  datatype Manifest = Manifest(repetition: int, identity: Identity)

  /** How `validate_aggregate_commit` ends: it commits, or raises for the semantic comparison, or raises
      for anything else. */
  datatype CommitVerdict = Commits | SemanticFailure | StructuralDefect

  function RecordCaseIds(cases: seq<seq<RestartRecord>>): seq<string> {
    if cases == [] then []
    else (if cases[0] == [] then [] else [cases[0][0].semantics.caseId]) + RecordCaseIds(cases[1..])
  }

  function ComparisonCaseIds(comparisons: seq<RestartComparison>): seq<string> {
    seq(|comparisons|, i requires 0 <= i < |comparisons| => comparisons[i].caseId)
  }

  predicate Distinct(ids: seq<string>) {
    forall i, j :: 0 <= i < j < |ids| ==> ids[i] != ids[j]
  }

  predicate AreThreeManifests(manifests: seq<Manifest>) {
    |manifests| == 3 && forall i :: 0 <= i < 3 ==> manifests[i].repetition == i + 1
  }

  /** Records one, two and three in order, each bound to the manifest of its repetition. */
  predicate IsBound(records: seq<RestartRecord>, manifests: seq<Manifest>)
    requires AreThreeManifests(manifests)
  {
    |records| == 3 && forall i :: 0 <= i < 3 ==>
      records[i].repetition == i + 1 && records[i].manifest == manifests[i].identity
  }

  predicate Reconstructs(cases: seq<seq<RestartRecord>>, comparisons: seq<RestartComparison>) {
    && |comparisons| == |cases|
    && forall i :: 0 <= i < |cases| ==> CompareThreeRestarts(cases[i]) == Returned(comparisons[i])
  }

  function ValidateAggregateCommit(
    manifests: seq<Manifest>, cases: seq<seq<RestartRecord>>, comparisons: seq<RestartComparison>,
      expected: seq<string>): CommitVerdict
  {
    if !AreThreeManifests(manifests) then StructuralDefect
    else if expected == [] || !Distinct(expected) || ComparisonCaseIds(comparisons) != expected
            || RecordCaseIds(cases) != expected || |cases| != |expected| then StructuralDefect
    else if exists i :: 0 <= i < |cases| && !IsBound(cases[i], manifests) then StructuralDefect
    else if !Reconstructs(cases, comparisons) then StructuralDefect
    else if exists i :: 0 <= i < |comparisons| && (!comparisons[i].committed || comparisons[i].mismatches != []) then
      SemanticFailure
    else Commits
  }

  // ---------------------------------------------------------------- the aggregate result

  datatype CrossComparison = CrossComparison(records: seq<RestartRecord>, comparison: RestartComparison)

  datatype AggregateResult = AggregateResult(committed: bool, invalidCaseIds: seq<string>)

  function RecordsOf(comparisons: seq<CrossComparison>): seq<seq<RestartRecord>> {
    seq(|comparisons|, i requires 0 <= i < |comparisons| => comparisons[i].records)
  }

  function ComparisonsOf(comparisons: seq<CrossComparison>): seq<RestartComparison> {
    seq(|comparisons|, i requires 0 <= i < |comparisons| => comparisons[i].comparison)
  }

  function InvalidCaseIds(comparisons: seq<RestartComparison>): seq<string> {
    if comparisons == [] then []
    else (if comparisons[0].committed then [] else [comparisons[0].caseId]) + InvalidCaseIds(comparisons[1..])
  }

  /** Strings compare by their first difference. */
  predicate Less(a: string, b: string) {
    b != [] && (a == [] || a[0] < b[0] || (a[0] == b[0] && Less(a[1..], b[1..])))
  }

  /** Equal to its own `sorted(set(...))`. */
  predicate SortedAndUnique(ids: seq<string>) {
    forall i, j :: 0 <= i < j < |ids| ==> Less(ids[i], ids[j])
  }

  /** `derive_aggregate_validation_result`, with the contract of the result it builds. */
  function DeriveAggregateValidationResult(
    manifests: seq<Manifest>, comparisons: seq<CrossComparison>, expected: seq<string>)
    : Result<AggregateResult>
  {
    var invalid := InvalidCaseIds(ComparisonsOf(comparisons));
    var verdict := ValidateAggregateCommit(manifests, RecordsOf(comparisons), ComparisonsOf(comparisons), expected);
    if invalid != [] then
      if verdict.StructuralDefect? then Raised
      else if verdict.Commits? then Raised // semantic mismatch unexpectedly passed
      else if !SortedAndUnique(invalid) then Raised
      else Returned(AggregateResult(false, invalid))
    else if !verdict.Commits? then Raised
    else Returned(AggregateResult(true, []))
  }

  // ---------------------------------------------------------------- the verdict, exactly

  /** Everything but the semantic agreement itself: the three manifests, each expected case once and in
      order with its three bound original records, and comparisons that follow from the records. */
  predicate StructureHolds(manifests: seq<Manifest>, comparisons: seq<CrossComparison>, expected: seq<string>) {
    && |manifests| == 3 && (forall k :: 0 <= k < 3 ==> manifests[k].repetition == k + 1)
    && expected != [] && |comparisons| == |expected|
    && (forall i, j :: 0 <= i < j < |expected| ==> expected[i] != expected[j])
    && forall i :: 0 <= i < |comparisons| ==>
         && |comparisons[i].records| == 3
         && (forall k :: 0 <= k < 3 ==>
               && comparisons[i].records[k].repetition == k + 1 && !comparisons[i].records[k].replacement
               && comparisons[i].records[k].manifest == manifests[k].identity)
         && comparisons[i].records[0].semantics.caseId == expected[i] && comparisons[i].comparison.caseId == expected[i]
         && CompareThreeRestarts(comparisons[i].records) == Returned(comparisons[i].comparison)
  }

  lemma {:induction false} RecordIdsByCase(cases: seq<seq<RestartRecord>>)
    ensures |RecordCaseIds(cases)| <= |cases|
    ensures |RecordCaseIds(cases)| == |cases| ==> forall i :: 0 <= i < |cases| ==> cases[i] != []
    ensures (forall i :: 0 <= i < |cases| ==> cases[i] != [])
            ==> |RecordCaseIds(cases)| == |cases|
                && forall i :: 0 <= i < |cases| ==> RecordCaseIds(cases)[i] == cases[i][0].semantics.caseId
  {
    if cases != [] {
      RecordIdsByCase(cases[1..]);
      assert forall i :: 0 < i < |cases| ==> cases[i] == cases[1..][i - 1];
    }
  }

  /** The same in the words of the commit. */
  predicate HoldsInParts(manifests: seq<Manifest>, comparisons: seq<CrossComparison>, expected: seq<string>) {
    && AreThreeManifests(manifests)
    && expected != [] && Distinct(expected) && |comparisons| == |expected|
    && forall i :: 0 <= i < |comparisons| ==>
         && IsBound(comparisons[i].records, manifests)
         && comparisons[i].records[0].semantics.caseId == expected[i] && comparisons[i].comparison.caseId == expected[i]
         && CompareThreeRestarts(comparisons[i].records) == Returned(comparisons[i].comparison)
  }

  lemma HoldsByParts(manifests: seq<Manifest>, comparisons: seq<CrossComparison>, expected: seq<string>)
    ensures StructureHolds(manifests, comparisons, expected) <==> HoldsInParts(manifests, comparisons, expected)
  {
    forall i | 0 <= i < |comparisons| && CompareThreeRestarts(comparisons[i].records).Returned?
      ensures AreThreeRestarts(comparisons[i].records)
    {
    }
  }

  lemma StructureLists(manifests: seq<Manifest>, comparisons: seq<CrossComparison>, expected: seq<string>)
    requires HoldsInParts(manifests, comparisons, expected)
    ensures ComparisonCaseIds(ComparisonsOf(comparisons)) == expected
            && RecordCaseIds(RecordsOf(comparisons)) == expected
  {
    var cases := RecordsOf(comparisons);
    RecordIdsByCase(cases);
    assert forall i :: 0 <= i < |cases| ==> cases[i] == comparisons[i].records && cases[i] != [];
  }

  lemma StructureExactly(manifests: seq<Manifest>, comparisons: seq<CrossComparison>, expected: seq<string>)
    ensures ValidateAggregateCommit(manifests, RecordsOf(comparisons), ComparisonsOf(comparisons), expected)
            != StructuralDefect
            <==> StructureHolds(manifests, comparisons, expected)
  {
    var cases, ids := RecordsOf(comparisons), ComparisonCaseIds(ComparisonsOf(comparisons));
    RecordIdsByCase(cases);
    HoldsByParts(manifests, comparisons, expected);
    if HoldsInParts(manifests, comparisons, expected) {
      StructureLists(manifests, comparisons, expected);
    } else if AreThreeManifests(manifests) && ids == expected && RecordCaseIds(cases) == expected
      && |cases| == |expected| {
      assert forall i :: 0 <= i < |cases| ==>
             ids[i] == comparisons[i].comparison.caseId && RecordCaseIds(cases)[i] == cases[i][0].semantics.caseId;
    }
  }

  /** The ids of the cases whose records do not agree, in order. */
  function Disagreeing(comparisons: seq<CrossComparison>, expected: seq<string>): seq<string>
    requires |comparisons| == |expected|
  {
    if comparisons == [] then []
    else (if AllAgree(comparisons[0].records) then [] else [expected[0]]) + Disagreeing(comparisons[1..], expected[1..])
  }

  lemma {:induction false} InvalidAreDisagreeing(comparisons: seq<CrossComparison>, expected: seq<string>)
    requires |comparisons| == |expected|
    requires forall i :: 0 <= i < |comparisons| ==>
               && comparisons[i].comparison.caseId == expected[i]
               && CompareThreeRestarts(comparisons[i].records) == Returned(comparisons[i].comparison)
    ensures InvalidCaseIds(ComparisonsOf(comparisons)) == Disagreeing(comparisons, expected)
  {
    if comparisons != [] {
      InvalidAreDisagreeing(comparisons[1..], expected[1..]);
      ComparisonPassesExactly(comparisons[0].records);
      assert ComparisonsOf(comparisons)[1..] == ComparisonsOf(comparisons[1..]);
      assert ComparisonsOf(comparisons)[0] == comparisons[0].comparison;
    }
  }

  lemma {:induction false} NoneDisagreeing(comparisons: seq<CrossComparison>, expected: seq<string>)
    requires |comparisons| == |expected|
    ensures Disagreeing(comparisons, expected) == []
            <==> forall i :: 0 <= i < |comparisons| ==> AllAgree(comparisons[i].records)
  {
    if comparisons != [] {
      NoneDisagreeing(comparisons[1..], expected[1..]);
      assert forall i :: 0 < i < |comparisons| ==> comparisons[i] == comparisons[1..][i - 1];
    }
  }

  lemma {:induction false} DisagreeingAreExpected(comparisons: seq<CrossComparison>, expected: seq<string>, x: string)
    requires |comparisons| == |expected| && x in Disagreeing(comparisons, expected)
    ensures x in expected
  {
    if comparisons != [] && x in Disagreeing(comparisons[1..], expected[1..]) {
      DisagreeingAreExpected(comparisons[1..], expected[1..], x);
    }
  }

  lemma {:induction false} DisagreeingAreSorted(comparisons: seq<CrossComparison>, expected: seq<string>)
    requires |comparisons| == |expected| && SortedAndUnique(expected)
    ensures SortedAndUnique(Disagreeing(comparisons, expected))
  {
    if comparisons != [] {
      var rest := Disagreeing(comparisons[1..], expected[1..]);
      DisagreeingAreSorted(comparisons[1..], expected[1..]);
      forall j | 0 <= j < |rest| ensures Less(expected[0], rest[j]) {
        DisagreeingAreExpected(comparisons[1..], expected[1..], rest[j]);
      }
    }
  }

  /** The aggregate verdict, exactly: whether there is a result depends on structure alone, so that no
      semantic mismatch masks a structural defect; and given one, it is committed if and only if the
      three records of every case agree on all nine fields, and names the cases that do not. */
  lemma AggregateVerdictIsExact(manifests: seq<Manifest>, comparisons: seq<CrossComparison>, expected: seq<string>)
    requires SortedAndUnique(expected)
    ensures var r := DeriveAggregateValidationResult(manifests, comparisons, expected);
            && (r.Returned? <==> StructureHolds(manifests, comparisons, expected))
            && (r.Returned? ==>
                  && (r.value.committed <==> forall i :: 0 <= i < |comparisons| ==> AllAgree(comparisons[i].records))
                  && r.value.invalidCaseIds == Disagreeing(comparisons, expected))
  {
    StructureExactly(manifests, comparisons, expected);
    if StructureHolds(manifests, comparisons, expected) {
      InvalidAreDisagreeing(comparisons, expected);
      NoneDisagreeing(comparisons, expected);
      DisagreeingAreSorted(comparisons, expected);
      SemanticsDecide(manifests, comparisons, expected);
    }
  }

  /** Behind a sound structure the commit fails exactly when some case is invalid: a mismatch never
      passes unexpectedly, and the failure is always the semantic one. */
  lemma SemanticsDecide(manifests: seq<Manifest>, comparisons: seq<CrossComparison>, expected: seq<string>)
    requires StructureHolds(manifests, comparisons, expected)
    ensures ValidateAggregateCommit(manifests, RecordsOf(comparisons), ComparisonsOf(comparisons), expected)
            == if InvalidCaseIds(ComparisonsOf(comparisons)) == [] then Commits else SemanticFailure
  {
    StructureExactly(manifests, comparisons, expected);
    InvalidAreDisagreeing(comparisons, expected);
    NoneDisagreeing(comparisons, expected);
    var all := ComparisonsOf(comparisons);
    forall i | 0 <= i < |all|
      ensures all[i].committed <==> AllAgree(comparisons[i].records)
      ensures all[i].mismatches == [] <==> AllAgree(comparisons[i].records)
    {
      ComparisonPassesExactly(comparisons[i].records);
    }
  }

  // ---------------------------------------------------------------- the sixteen case ids

  function CaseId(n: nat): string
    requires n < 100
  {
    "stage2-case-v1-" + ['0' + (n / 10) as char, '0' + (n % 10) as char]
  }

  const EXPERIMENT_CASE_IDS: seq<string> := seq(16, i requires 0 <= i < 16 => CaseId(i + 1))

  lemma {:induction false} LessBehindPrefix(prefix: string, a: string, b: string)
    requires Less(a, b)
    ensures Less(prefix + a, prefix + b)
  {
    if prefix == [] {
      assert prefix + a == a && prefix + b == b;
    } else {
      assert (prefix + a)[1..] == prefix[1..] + a && (prefix + b)[1..] == prefix[1..] + b;
      LessBehindPrefix(prefix[1..], a, b);
    }
  }

  /** The experiment's own case ids are sorted and unique. */
  lemma CaseIdsAreSorted()
    ensures SortedAndUnique(EXPERIMENT_CASE_IDS)
  {
    forall i, j | 0 <= i < j < 16 ensures Less(EXPERIMENT_CASE_IDS[i], EXPERIMENT_CASE_IDS[j]) {
      var a, b := ['0' + ((i + 1) / 10) as char, '0' + ((i + 1) % 10) as char],
        ['0' + ((j + 1) / 10) as char, '0' + ((j + 1) % 10) as char];
      assert Less(a[1..], b[1..]) || (i + 1) / 10 < (j + 1) / 10;
      LessBehindPrefix("stage2-case-v1-", a, b);
    }
  }
}
