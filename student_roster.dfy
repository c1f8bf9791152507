/** The statistics and classification part of the student roster loader:
    each record is classified by exam type (IELTS or TOEFL), the IELTS
    records feed four running accumulators, and the loader then derives the
    total record count and the IELTS average that the page's counters show. */
module StudentRoster {

  datatype Option<T> = None | Some(value: T)

  /** One record of the roster file, as far as statistics and classification
      read it. `examType` is the raw `type` field (absent is None);
      `overall` is the overall score once parseFloat has been applied. */
  datatype Student = Student(examType: Option<string>, overall: real)

  /** The loop's four accumulators and the two values derived after it. */
  datatype RosterStats = RosterStats(
    ieltsSum: real,
    ieltsCount: nat,
    highest: real,
    sevenPlus: nat,
    totalStudents: nat,
    average: real)

  const DefaultExamType: string := "IELTS"
  const SevenPlusThreshold: real := 7.0

  // ---------------------------------------------------------------------
  // Classification of one record
  // ---------------------------------------------------------------------

  /** Upper-cases an ASCII lower-case letter and leaves every other character alone. */
  function UpperChar(c: char): char
  {
    if 'a' <= c <= 'z' then (c as int - 32) as char else c
  }

  function ToUpper(s: string): string
  {
    seq(|s|, i requires 0 <= i < |s| => UpperChar(s[i]))
  }

  /** The record's exam type: the upper-cased `type` field, or "IELTS" when
      the field is absent or empty. It is also the text of the card's badge. */
  function ExamType(r: Student): string
  {
    ToUpper(if r.examType.Some? && r.examType.value != "" then r.examType.value else DefaultExamType)
  }

  /** The exam type is never empty and holds no lower-case letter; it is
      "IELTS" when the field is absent or empty, and otherwise has the
      field's length. */
  lemma {:induction false} ExamTypeShape(r: Student)
    ensures |ExamType(r)| > 0
    ensures forall i :: 0 <= i < |ExamType(r)| ==> !('a' <= ExamType(r)[i] <= 'z')
    ensures r.examType == None || r.examType == Some("") ==> ExamType(r) == DefaultExamType
    ensures r.examType.Some? && r.examType.value != "" ==> |ExamType(r)| == |r.examType.value|
  {
    assert ToUpper(DefaultExamType) == DefaultExamType;
  }

  predicate IsToefl(r: Student)
  {
    ExamType(r) == "TOEFL"
  }

  /** `s` spells TOEFL with each letter in either case. */
  predicate SpellsToeflInAnyCase(s: string)
  {
    |s| == 5 && forall i :: 0 <= i < 5 ==> s[i] == "TOEFL"[i] || s[i] == "toefl"[i]
  }

  lemma {:induction false} UpperCharIsLetter(c: char, upper: char, lower: char)
    requires 'A' <= upper <= 'Z' && lower as int == upper as int + 32
    ensures UpperChar(c) == upper <==> c == upper || c == lower
  {
  }

  /** With ASCII upper-casing, a record is TOEFL exactly when its `type`
      field is "TOEFL" in any mix of letter cases; an absent or empty field,
      and every other spelling, make it IELTS. */
  lemma {:induction false} ToeflIffSpelledInAnyCase(r: Student)
    ensures IsToefl(r) <==> r.examType.Some? && SpellsToeflInAnyCase(r.examType.value)
  {
    if r.examType.Some? && r.examType.value != "" {
      var s := r.examType.value;
      if |s| == 5 {
        forall i | 0 <= i < 5
          ensures UpperChar(s[i]) == "TOEFL"[i] <==> s[i] == "TOEFL"[i] || s[i] == "toefl"[i]
        {
          UpperCharIsLetter(s[i], "TOEFL"[i], "toefl"[i]);
        }
        assert IsToefl(r) <==> forall i :: 0 <= i < 5 ==> UpperChar(s[i]) == "TOEFL"[i];
      }
    } else {
      assert ExamType(r) == "IELTS";
    }
  }

  lemma {:induction false} ExamTypeExamples()
    ensures ExamType(Student(None, 6.5)) == "IELTS" && !IsToefl(Student(None, 6.5))
    ensures ExamType(Student(Some(""), 6.5)) == "IELTS"
    ensures ExamType(Student(Some("toefl"), 95.0)) == "TOEFL" && IsToefl(Student(Some("toefl"), 95.0))
    ensures IsToefl(Student(Some("Toefl"), 95.0))
    ensures ExamType(Student(Some("ielts"), 7.0)) == "IELTS"
    ensures !IsToefl(Student(Some("TOEFL iBT"), 95.0))
  {
    ToeflIffSpelledInAnyCase(Student(Some("toefl"), 95.0));
    ToeflIffSpelledInAnyCase(Student(Some("Toefl"), 95.0));
    assert ToUpper("toefl") == "TOEFL";
    assert ToUpper("ielts") == "IELTS";
  }

  /** The label in front of the card's score. */
  function ScoreLabel(r: Student): (caption: string)
    ensures caption == "Total Score" <==> IsToefl(r)
    ensures caption == "Overall Band" <==> !IsToefl(r)
  {
    if IsToefl(r) then "Total Score" else "Overall Band"
  }

  /** The class attribute of the card's badge. */
  function BadgeClass(r: Student): (cls: string)
    ensures cls == "exam-badge badge-toefl" <==> IsToefl(r)
    ensures cls == "exam-badge badge-ielts" <==> !IsToefl(r)
  {
    var cls := "exam-badge " + (if IsToefl(r) then "badge-toefl" else "badge-ielts");
    assert "exam-badge badge-toefl"[17] != "exam-badge badge-ielts"[17];
    cls
  }

  // ---------------------------------------------------------------------
  // Specification of the statistics
  // ---------------------------------------------------------------------

  /** What the statistics read of one record once it is classified. */
  datatype Classified = Classified(isToefl: bool, score: real)

  /** Every record of the roster, classified, in roster order. */
  function ClassifyAll(students: seq<Student>): (cs: seq<Classified>)
    ensures |cs| == |students|
  {
    if students == [] then []
    else
      var last := students[|students| - 1];
      ClassifyAll(students[..|students| - 1]) + [Classified(IsToefl(last), last.overall)]
  }

  /** The scores of the non-TOEFL entries, in order. */
  function Scores(cs: seq<Classified>): (xs: seq<real>)
    ensures |xs| <= |cs|
  {
    if cs == [] then []
    else
      var init := Scores(cs[..|cs| - 1]);
      var last := cs[|cs| - 1];
      if last.isToefl then init else init + [last.score]
  }

  /** The overall scores of the non-TOEFL records, in roster order. */
  function IeltsScores(students: seq<Student>): seq<real>
  {
    Scores(ClassifyAll(students))
  }

  function Sum(xs: seq<real>): real
  {
    if xs == [] then 0.0 else Sum(xs[..|xs| - 1]) + xs[|xs| - 1]
  }

  /** Math.max on two numbers. */
  function Max(a: real, b: real): real
  {
    if a >= b then a else b
  }

  /** The running maximum, started at 0. */
  function Highest(xs: seq<real>): real
  {
    if xs == [] then 0.0 else Max(Highest(xs[..|xs| - 1]), xs[|xs| - 1])
  }

  function CountAtLeast(xs: seq<real>, threshold: real): (n: nat)
    ensures n <= |xs|
  {
    if xs == [] then 0
    else CountAtLeast(xs[..|xs| - 1], threshold) + (if xs[|xs| - 1] >= threshold then 1 else 0)
  }

  /** The zero-guarded average. */
  function Mean(xs: seq<real>): real
  {
    if |xs| > 0 then Sum(xs) / (|xs| as real) else 0.0
  }

  /** What the loader computes for a roster. */
  function RosterSummary(students: seq<Student>): RosterStats
  {
    var xs := IeltsScores(students);
    RosterStats(Sum(xs), |xs|, Highest(xs), CountAtLeast(xs, SevenPlusThreshold), |students|, Mean(xs))
  }

  // ---------------------------------------------------------------------
  // The aggregation loop
  // ---------------------------------------------------------------------

  /** The loop's four accumulators hold the sum, the count, the running
      maximum and the seven-plus count of the scores `xs` seen so far. */
  ghost predicate Tallies(ieltsSum: real, ieltsCount: nat, highest: real, sevenPlus: nat, xs: seq<real>)
  {
    ieltsSum == Sum(xs) && ieltsCount == |xs| && highest == Highest(xs)
    && sevenPlus == CountAtLeast(xs, SevenPlusThreshold)
  }

  /** One pass over the roster: TOEFL records are skipped, every other
      record adds its score to the sum, one to the count, may raise the
      highest score and, at 7.0 or above, one to the seven-plus count. */
  method ComputeRosterStats(students: seq<Student>) returns (stats: RosterStats)
    ensures stats == RosterSummary(students)
  {
    var ieltsSum: real := 0.0;
    var ieltsCount: nat := 0;
    var highest: real := 0.0;
    var sevenPlus: nat := 0;
    ghost var cs := ClassifyAll(students);
    for i := 0 to |students|
      invariant Tallies(ieltsSum, ieltsCount, highest, sevenPlus, Scores(cs[..i]))
    {
      var student := students[i];
      var isToefl := IsToefl(student);
      TalliesStep(students, cs, i, ieltsSum, ieltsCount, highest, sevenPlus);
      if !isToefl {
        var score := student.overall;
        ieltsSum := ieltsSum + score;
        ieltsCount := ieltsCount + 1;
        highest := Max(highest, score);
        sevenPlus := sevenPlus + (if score >= SevenPlusThreshold then 1 else 0);
      }
    }
    var totalStudents := |students|;
    var average := if ieltsCount > 0 then ieltsSum / (ieltsCount as real) else 0.0;
    SummaryFromTallies(students, cs, ieltsSum, ieltsCount, highest, sevenPlus);
    stats := RosterStats(ieltsSum, ieltsCount, highest, sevenPlus, totalStudents, average);
  }

  /** One loop iteration keeps the accumulators in step with the scores
      seen so far: a TOEFL record leaves them alone, any other record is
      added to all four. */
  lemma {:induction false} TalliesStep(students: seq<Student>, cs: seq<Classified>, i: nat,
                                       sum: real, count: nat, hi: real, sp: nat)
    requires cs == ClassifyAll(students) && i < |students|
    requires Tallies(sum, count, hi, sp, Scores(cs[..i]))
    ensures IsToefl(students[i]) ==> Tallies(sum, count, hi, sp, Scores(cs[..i + 1]))
    ensures !IsToefl(students[i]) ==>
      var x := students[i].overall;
      Tallies(sum + x, count + 1, Max(hi, x), sp + (if x >= SevenPlusThreshold then 1 else 0),
              Scores(cs[..i + 1]))
  {
    ClassifyAllAt(students, i);
    ScoresStep(cs, i);
    ExtendByOne(Scores(cs[..i]), students[i].overall);
  }

  /** Once every record has been seen, the accumulators and the guarded
      quotient are the summary of the roster. */
  lemma {:induction false} SummaryFromTallies(students: seq<Student>, cs: seq<Classified>,
                                              sum: real, count: nat, hi: real, sp: nat)
    requires cs == ClassifyAll(students)
    requires Tallies(sum, count, hi, sp, Scores(cs[..|students|]))
    ensures RosterSummary(students) ==
      RosterStats(sum, count, hi, sp, |students|, if count > 0 then sum / (count as real) else 0.0)
  {
    assert cs[..|students|] == cs;
  }

  // ---------------------------------------------------------------------
  // Properties of the statistics
  // ---------------------------------------------------------------------

  /** One more entry adds its score to the scores unless it is TOEFL. */
  lemma {:induction false} ScoresStep(cs: seq<Classified>, i: nat)
    requires i < |cs|
    ensures Scores(cs[..i + 1]) == if cs[i].isToefl then Scores(cs[..i]) else Scores(cs[..i]) + [cs[i].score]
  {
    assert cs[..i + 1][..i] == cs[..i];
  }

  /** One more score adds itself to the sum, one to the length, may raise
      the maximum, and counts towards the threshold when it reaches it. */
  lemma {:induction false} ExtendByOne(xs: seq<real>, x: real)
    ensures Sum(xs + [x]) == Sum(xs) + x
    ensures |xs + [x]| == |xs| + 1
    ensures Highest(xs + [x]) == Max(Highest(xs), x)
    ensures CountAtLeast(xs + [x], SevenPlusThreshold) ==
      CountAtLeast(xs, SevenPlusThreshold) + (if x >= SevenPlusThreshold then 1 else 0)
  {
    assert (xs + [x])[..|xs|] == xs;
  }

  lemma {:induction false} ClassifyAllAt(students: seq<Student>, i: nat)
    requires i < |students|
    ensures ClassifyAll(students)[i] == Classified(IsToefl(students[i]), students[i].overall)
    decreases |students|
  {
    var init := students[..|students| - 1];
    if i < |init| {
      ClassifyAllAt(init, i);
    }
  }

  lemma {:induction false} ClassifyAllAppend(a: seq<Student>, b: seq<Student>)
    ensures ClassifyAll(a + b) == ClassifyAll(a) + ClassifyAll(b)
    decreases |b|
  {
    if b == [] {
      assert a + b == a;
    } else {
      var b' := b[..|b| - 1];
      ClassifyAllAppend(a, b');
      assert (a + b)[..|a + b| - 1] == a + b';
    }
  }

  lemma {:induction false} ScoresAppend(xs: seq<Classified>, ys: seq<Classified>)
    ensures Scores(xs + ys) == Scores(xs) + Scores(ys)
    decreases |ys|
  {
    if ys == [] {
      assert xs + ys == xs;
    } else {
      var ys' := ys[..|ys| - 1];
      ScoresAppend(xs, ys');
      assert (xs + ys)[..|xs + ys| - 1] == xs + ys';
    }
  }

  lemma {:induction false} IeltsScoresAppend(a: seq<Student>, b: seq<Student>)
    ensures IeltsScores(a + b) == IeltsScores(a) + IeltsScores(b)
  {
    ClassifyAllAppend(a, b);
    ScoresAppend(ClassifyAll(a), ClassifyAll(b));
  }

  /** The IELTS scores of a single record: its score unless it is TOEFL. */
  lemma {:induction false} IeltsScoresOfOne(t: Student)
    ensures IeltsScores([t]) == if IsToefl(t) then [] else [t.overall]
  {
    assert [t][..0] == [];
    var c := Classified(IsToefl(t), t.overall);
    assert ClassifyAll([t]) == [c];
    assert [c][..0] == [];
  }

  lemma {:induction false} SumAppend(xs: seq<real>, ys: seq<real>)
    ensures Sum(xs + ys) == Sum(xs) + Sum(ys)
    decreases |ys|
  {
    if ys == [] {
      assert xs + ys == xs;
    } else {
      var ys' := ys[..|ys| - 1];
      SumAppend(xs, ys');
      assert (xs + ys)[..|xs + ys| - 1] == xs + ys';
    }
  }

  lemma {:induction false} HighestNonNegative(xs: seq<real>)
    ensures Highest(xs) >= 0.0
    decreases |xs|
  {
    if xs != [] {
      HighestNonNegative(xs[..|xs| - 1]);
    }
  }

  lemma {:induction false} HighestAppend(xs: seq<real>, ys: seq<real>)
    ensures Highest(xs + ys) == Max(Highest(xs), Highest(ys))
    decreases |ys|
  {
    if ys == [] {
      assert xs + ys == xs;
      HighestNonNegative(xs);
    } else {
      var ys' := ys[..|ys| - 1];
      HighestAppend(xs, ys');
      assert (xs + ys)[..|xs + ys| - 1] == xs + ys';
    }
  }

  lemma {:induction false} CountAtLeastAppend(xs: seq<real>, ys: seq<real>, threshold: real)
    ensures CountAtLeast(xs + ys, threshold) == CountAtLeast(xs, threshold) + CountAtLeast(ys, threshold)
    decreases |ys|
  {
    if ys == [] {
      assert xs + ys == xs;
    } else {
      var ys' := ys[..|ys| - 1];
      CountAtLeastAppend(xs, ys', threshold);
      assert (xs + ys)[..|xs + ys| - 1] == xs + ys';
    }
  }

  /** A TOEFL record, wherever it stands in the roster, changes none of the
      IELTS statistics: only the total count grows by one. */
  lemma {:induction false} ToeflRecordChangesNothing(a: seq<Student>, t: Student, b: seq<Student>)
    requires IsToefl(t)
    ensures RosterSummary(a + [t] + b) == RosterSummary(a + b).(totalStudents := |a| + |b| + 1)
  {
    IeltsScoresAppend(a + [t], b);
    IeltsScoresAppend(a, [t]);
    IeltsScoresAppend(a, b);
    IeltsScoresOfOne(t);
    assert IeltsScores(a) + [] == IeltsScores(a);
  }

  /** A non-TOEFL record, wherever it stands, adds its score to the sum, one
      to the count, raises the highest score to at least its own, and adds
      one to the seven-plus count exactly when it scores 7.0 or more. */
  lemma {:induction false} IeltsRecordIsCounted(a: seq<Student>, t: Student, b: seq<Student>)
    requires !IsToefl(t)
    ensures var before, after := RosterSummary(a + b), RosterSummary(a + [t] + b);
      && after.ieltsSum == before.ieltsSum + t.overall
      && after.ieltsCount == before.ieltsCount + 1
      && after.highest == Max(before.highest, t.overall)
      && after.sevenPlus == before.sevenPlus + (if t.overall >= 7.0 then 1 else 0)
      && after.totalStudents == before.totalStudents + 1
  {
    var xa, xb := IeltsScores(a), IeltsScores(b);
    IeltsScoresAppend(a + [t], b);
    IeltsScoresAppend(a, [t]);
    IeltsScoresAppend(a, b);
    IeltsScoresOfOne(t);
    InsertScore(xa, t.overall, xb);
  }

  /** The four tallies of scores with one more score inserted anywhere. */
  lemma {:induction false} InsertScore(xa: seq<real>, x: real, xb: seq<real>)
    ensures Sum(xa + [x] + xb) == Sum(xa + xb) + x
    ensures |xa + [x] + xb| == |xa + xb| + 1
    ensures Highest(xa + [x] + xb) == Max(Highest(xa + xb), x)
    ensures CountAtLeast(xa + [x] + xb, SevenPlusThreshold) ==
      CountAtLeast(xa + xb, SevenPlusThreshold) + (if x >= SevenPlusThreshold then 1 else 0)
  {
    ExtendByOne(xa, x);
    SumAppend(xa + [x], xb);
    SumAppend(xa, xb);
    HighestAppend(xa + [x], xb);
    HighestAppend(xa, xb);
    CountAtLeastAppend(xa + [x], xb, SevenPlusThreshold);
    CountAtLeastAppend(xa, xb, SevenPlusThreshold);
  }

  // Reference definitions: the same quantities read straight off the records.

  /** The number of records that are not TOEFL. */
  function NonToeflRecords(students: seq<Student>): nat
  {
    if students == [] then 0
    else (if IsToefl(students[0]) then 0 else 1) + NonToeflRecords(students[1..])
  }

  /** The number of non-TOEFL records whose score is 7.0 or more. */
  function SevenPlusRecords(students: seq<Student>): nat
  {
    if students == [] then 0
    else
      var counts := !IsToefl(students[0]) && students[0].overall >= SevenPlusThreshold;
      (if counts then 1 else 0) + SevenPlusRecords(students[1..])
  }

  /** The sum of the scores of the records that are not TOEFL. */
  function NonToeflTotal(students: seq<Student>): real
  {
    if students == [] then 0.0
    else (if IsToefl(students[0]) then 0.0 else students[0].overall) + NonToeflTotal(students[1..])
  }

  /** The scores of a roster are those of its first record followed by
      those of the rest. */
  lemma {:induction false} IeltsScoresCons(students: seq<Student>)
    requires students != []
    ensures IeltsScores(students) ==
      (if IsToefl(students[0]) then [] else [students[0].overall]) + IeltsScores(students[1..])
  {
    assert students == [students[0]] + students[1..];
    IeltsScoresAppend([students[0]], students[1..]);
    IeltsScoresOfOne(students[0]);
  }

  /** The loader's sum is the sum of the scores of the non-TOEFL records. */
  lemma {:induction false} SumIsNonToeflTotal(students: seq<Student>)
    ensures RosterSummary(students).ieltsSum == NonToeflTotal(students)
    decreases |students|
  {
    if students != [] {
      SumIsNonToeflTotal(students[1..]);
      IeltsScoresCons(students);
      var head := if IsToefl(students[0]) then [] else [students[0].overall];
      SumAppend(head, IeltsScores(students[1..]));
      assert [students[0].overall][..0] == [];
    }
  }

  /** The loader's count is the number of non-TOEFL records. */
  lemma {:induction false} CountIsNonToeflRecords(students: seq<Student>)
    ensures RosterSummary(students).ieltsCount == NonToeflRecords(students)
    decreases |students|
  {
    if students != [] {
      CountIsNonToeflRecords(students[1..]);
      IeltsScoresCons(students);
    }
  }

  /** The seven-plus count is the number of non-TOEFL records scoring 7.0
      or more, 7.0 itself included. */
  lemma {:induction false} SevenPlusIsQualifyingRecords(students: seq<Student>)
    ensures RosterSummary(students).sevenPlus == SevenPlusRecords(students)
    decreases |students|
  {
    if students != [] {
      SevenPlusIsQualifyingRecords(students[1..]);
      IeltsScoresCons(students);
      var head := if IsToefl(students[0]) then [] else [students[0].overall];
      CountAtLeastAppend(head, IeltsScores(students[1..]), SevenPlusThreshold);
      assert [students[0].overall][..0] == [];
    }
  }

  /** The IELTS count lies between the seven-plus count and the total. */
  lemma {:induction false} CountsAreOrdered(students: seq<Student>)
    ensures var s := RosterSummary(students);
      s.sevenPlus <= s.ieltsCount <= s.totalStudents
  {
    var xs := IeltsScores(students);
    assert |ClassifyAll(students)| == |students|;
    assert RosterSummary(students).ieltsCount == |xs|;
  }

  lemma {:induction false} FullScoresIffNoToefl(cs: seq<Classified>)
    ensures |Scores(cs)| == |cs| <==> forall i :: 0 <= i < |cs| ==> !cs[i].isToefl
    decreases |cs|
  {
    if cs != [] {
      var init := cs[..|cs| - 1];
      FullScoresIffNoToefl(init);
      assert forall i :: 0 <= i < |init| ==> init[i] == cs[i];
    }
  }

  lemma {:induction false} NoScoresIffAllToefl(cs: seq<Classified>)
    ensures |Scores(cs)| == 0 <==> forall i :: 0 <= i < |cs| ==> cs[i].isToefl
    decreases |cs|
  {
    if cs != [] {
      var init := cs[..|cs| - 1];
      NoScoresIffAllToefl(init);
      assert forall i :: 0 <= i < |init| ==> init[i] == cs[i];
    }
  }

  /** The IELTS count equals the total exactly when no record is TOEFL. */
  lemma {:induction false} FullCountIffNoToefl(students: seq<Student>)
    ensures RosterSummary(students).ieltsCount == |students| <==>
      forall i :: 0 <= i < |students| ==> !IsToefl(students[i])
  {
    var cs := ClassifyAll(students);
    FullScoresIffNoToefl(cs);
    forall i | 0 <= i < |students| ensures cs[i].isToefl == IsToefl(students[i]) {
      ClassifyAllAt(students, i);
    }
  }

  /** The IELTS count is zero exactly when every record is TOEFL. */
  lemma {:induction false} ZeroCountIffAllToefl(students: seq<Student>)
    ensures RosterSummary(students).ieltsCount == 0 <==>
      forall i :: 0 <= i < |students| ==> IsToefl(students[i])
  {
    var cs := ClassifyAll(students);
    NoScoresIffAllToefl(cs);
    forall i | 0 <= i < |students| ensures cs[i].isToefl == IsToefl(students[i]) {
      ClassifyAllAt(students, i);
    }
  }

  lemma {:induction false} ScoresAreNonToeflScores(cs: seq<Classified>)
    ensures forall k :: 0 <= k < |Scores(cs)| ==>
      exists i :: 0 <= i < |cs| && !cs[i].isToefl && cs[i].score == Scores(cs)[k]
    ensures forall i :: 0 <= i < |cs| && !cs[i].isToefl ==> cs[i].score in Scores(cs)
    decreases |cs|
  {
    if cs != [] {
      var init := cs[..|cs| - 1];
      var last := cs[|cs| - 1];
      ScoresAreNonToeflScores(init);
      assert forall i :: 0 <= i < |init| ==> init[i] == cs[i];
      var xs, xi := Scores(cs), Scores(init);
      forall k | 0 <= k < |xs|
        ensures exists i :: 0 <= i < |cs| && !cs[i].isToefl && cs[i].score == xs[k]
      {
        if k < |xi| {
          assert xs[k] == xi[k];
          var i :| 0 <= i < |init| && !init[i].isToefl && init[i].score == xi[k];
          assert cs[i] == init[i];
        } else {
          assert !last.isToefl && xs[k] == last.score;
        }
      }
    } else {
      assert Scores(cs) == [];
    }
  }

  /** Every IELTS score comes from a non-TOEFL record, and every non-TOEFL
      record contributes its score. */
  lemma {:induction false} IeltsScoresAreNonToeflScores(students: seq<Student>)
    ensures forall k :: 0 <= k < |IeltsScores(students)| ==>
      exists i :: 0 <= i < |students| && !IsToefl(students[i]) && students[i].overall == IeltsScores(students)[k]
    ensures forall i :: 0 <= i < |students| && !IsToefl(students[i]) ==> students[i].overall in IeltsScores(students)
  {
    var cs := ClassifyAll(students);
    var xs := IeltsScores(students);
    ScoresAreNonToeflScores(cs);
    forall i | 0 <= i < |students| ensures cs[i] == Classified(IsToefl(students[i]), students[i].overall) {
      ClassifyAllAt(students, i);
    }
    forall k | 0 <= k < |xs|
      ensures exists i :: 0 <= i < |students| && !IsToefl(students[i]) && students[i].overall == xs[k]
    {
      var i :| 0 <= i < |cs| && !cs[i].isToefl && cs[i].score == xs[k];
      assert !IsToefl(students[i]) && students[i].overall == xs[k];
    }
  }

  lemma {:induction false} HighestIsMax(xs: seq<real>)
    ensures Highest(xs) >= 0.0
    ensures forall k :: 0 <= k < |xs| ==> xs[k] <= Highest(xs)
    ensures Highest(xs) == 0.0 || Highest(xs) in xs
    decreases |xs|
  {
    if xs != [] {
      var init := xs[..|xs| - 1];
      HighestIsMax(init);
      assert forall k :: 0 <= k < |init| ==> init[k] == xs[k];
    }
  }

  /** The highest score is at least 0 and at least every IELTS score; it is
      0 or one of those scores, and it is 0 when there is no IELTS record. */
  lemma {:induction false} HighestIsMaximumOfIeltsScores(students: seq<Student>)
    ensures var h := RosterSummary(students).highest;
      && h >= 0.0
      && (forall i :: 0 <= i < |students| && !IsToefl(students[i]) ==> students[i].overall <= h)
      && (h == 0.0 || exists i :: 0 <= i < |students| && !IsToefl(students[i]) && students[i].overall == h)
      && (RosterSummary(students).ieltsCount == 0 ==> h == 0.0)
  {
    var xs := IeltsScores(students);
    HighestIsMax(xs);
    IeltsScoresAreNonToeflScores(students);
    var h := Highest(xs);
    if h != 0.0 {
      var k :| 0 <= k < |xs| && xs[k] == h;
    }
  }

  lemma {:induction false} SumAtMost(xs: seq<real>, hi: real)
    requires forall k :: 0 <= k < |xs| ==> xs[k] <= hi
    ensures Sum(xs) <= (|xs| as real) * hi
    decreases |xs|
  {
    if xs != [] {
      var init := xs[..|xs| - 1];
      assert forall k :: 0 <= k < |init| ==> init[k] == xs[k];
      SumAtMost(init, hi);
    }
  }

  lemma {:induction false} SumAtLeast(xs: seq<real>, lo: real)
    requires forall k :: 0 <= k < |xs| ==> lo <= xs[k]
    ensures (|xs| as real) * lo <= Sum(xs)
    decreases |xs|
  {
    if xs != [] {
      var init := xs[..|xs| - 1];
      assert forall k :: 0 <= k < |init| ==> init[k] == xs[k];
      SumAtLeast(init, lo);
    }
  }

  lemma {:induction false} MeanTimesCount(xs: seq<real>)
    requires |xs| > 0
    ensures Mean(xs) * (|xs| as real) == Sum(xs)
  {
    var n := |xs| as real;
    assert Mean(xs) == Sum(xs) / n;
  }

  lemma {:induction false} MeanAtMost(xs: seq<real>, hi: real)
    requires |xs| > 0
    requires forall k :: 0 <= k < |xs| ==> xs[k] <= hi
    ensures Mean(xs) <= hi
  {
    SumAtMost(xs, hi);
    MeanTimesCount(xs);
  }

  lemma {:induction false} MeanAtLeast(xs: seq<real>, lo: real)
    requires |xs| > 0
    requires forall k :: 0 <= k < |xs| ==> lo <= xs[k]
    ensures lo <= Mean(xs)
  {
    SumAtLeast(xs, lo);
    MeanTimesCount(xs);
  }

  /** When some record is IELTS and every IELTS score lies in [lo, hi], the
      average lies in [lo, hi]. */
  lemma {:induction false} AverageWithinBounds(students: seq<Student>, lo: real, hi: real)
    requires exists i :: 0 <= i < |students| && !IsToefl(students[i])
    requires forall i :: 0 <= i < |students| && !IsToefl(students[i]) ==> lo <= students[i].overall <= hi
    ensures lo <= RosterSummary(students).average <= hi
  {
    var xs := IeltsScores(students);
    IeltsScoresAreNonToeflScores(students);
    var i :| 0 <= i < |students| && !IsToefl(students[i]);
    assert students[i].overall in xs;
    forall k | 0 <= k < |xs| ensures lo <= xs[k] <= hi {
      var j :| 0 <= j < |students| && !IsToefl(students[j]) && students[j].overall == xs[k];
    }
    MeanAtMost(xs, hi);
    MeanAtLeast(xs, lo);
  }

  /** The average is zero without IELTS records and is the sum over the
      count otherwise. */
  lemma {:induction false} AverageIsSumOverCount(students: seq<Student>)
    ensures var s := RosterSummary(students);
      && (s.ieltsCount == 0 ==> s.average == 0.0)
      && (s.ieltsCount > 0 ==> s.average * (s.ieltsCount as real) == s.ieltsSum)
  {
    var xs := IeltsScores(students);
    var s := RosterSummary(students);
    assert s.average == Mean(xs) && s.ieltsCount == |xs| && s.ieltsSum == Sum(xs);
    if |xs| > 0 {
      MeanTimesCount(xs);
    }
  }

  /** The average never exceeds the highest score. */
  lemma {:induction false} AverageAtMostHighest(students: seq<Student>)
    ensures RosterSummary(students).average <= RosterSummary(students).highest
  {
    var xs := IeltsScores(students);
    HighestIsMax(xs);
    if |xs| > 0 {
      MeanAtMost(xs, Highest(xs));
    }
  }

  /** The seven-plus boundary is inclusive: 7.0 counts, 6.99 does not, and
      a TOEFL score never counts however high. */
  lemma {:induction false} SevenPlusBoundary()
    ensures RosterSummary([Student(None, 7.0)]).sevenPlus == 1
    ensures RosterSummary([Student(None, 6.99)]).sevenPlus == 0
    ensures RosterSummary([Student(Some("TOEFL"), 110.0)]).sevenPlus == 0
    ensures RosterSummary([]) == RosterStats(0.0, 0, 0.0, 0, 0, 0.0)
  {
    var seven, below, toefl := Student(None, 7.0), Student(None, 6.99), Student(Some("TOEFL"), 110.0);
    assert ToUpper(DefaultExamType) == "IELTS";
    assert ToUpper("TOEFL") == "TOEFL";
    IeltsScoresOfOne(seven);
    IeltsScoresOfOne(below);
    IeltsScoresOfOne(toefl);
    assert [7.0][..0] == [] && [6.99][..0] == [];
  }
}
