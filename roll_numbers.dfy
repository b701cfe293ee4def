/**
 * The roll-number generator of student_details.py: the producer of the
 * identity file that both booking engines validate student IDs against.
 * It fills a year -> department name -> list dictionary with IDs of the form
 * 1602-YY-DDD-NNN.
 */
module RollNumbers {
  import opened Wrappers
  import opened Decimal
  import opened CollegeIds

  /** `department_codes`, in its insertion order: (code, name). */
  const DepartmentCodes: seq<(string, string)> :=
    [("732", "Civil"), ("733", "CSE"), ("734", "EEE"), ("735", "ECE"),
     ("736", "Mech"), ("737", "IT"), ("748", "AIML")]

  /** `range(2020, 2025)`: the first year and the number of years. */
  const FirstYear: nat := 2020
  const YearCount: nat := 5

  /** `range(1, 195)`: sequence numbers 1..194 in every department. */
  const IdsPerDepartment: nat := 194

  /** `str(year)[2:]`: the numeral of the year without its first two characters. */
  function YearSuffix(year: nat): string
  {
    var s := Digits(year);
    if |s| < 2 then "" else s[2..]
  }

  /** `1602-`, the year suffix, `-`, the department code, `-`, and the sequence number zero-filled to three digits. */
  function RollNumber(year: nat, code: string, uniqueId: nat): string
  {
    "1602-" + YearSuffix(year) + "-" + code + "-" + ZFill(Digits(uniqueId), 3)
  }

  /** The ID generated for year number y (counting from 2020), department number d and sequence number s. */
  function IdOf(y: nat, d: nat, s: nat): string
    requires d < |DepartmentCodes|
  {
    RollNumber(FirstYear + y, DepartmentCodes[d].0, s)
  }

  /** The first `count` IDs of department d in year y, in generation order. */
  function DepartmentList(y: nat, d: nat, count: nat): seq<string>
    requires d < |DepartmentCodes|
  {
    seq(count, k requires 0 <= k => IdOf(y, d, k + 1))
  }

  /** The dictionary `generate_roll_numbers` builds, written out as a reference definition. */
  function RollNumbersByYear(): IdFile
  {
    seq(YearCount, y requires 0 <= y =>
      (Digits(FirstYear + y),
       seq(|DepartmentCodes|, d requires 0 <= d < |DepartmentCodes| =>
         (DepartmentCodes[d].1, DepartmentList(y, d, IdsPerDepartment)))))
  }

  // ---------------------------------------------------------------------
  // The generator itself

  /** How many IDs list (y, d) holds once the generator is at list (yi, di) with k IDs written. */
  function Written(y: nat, d: nat, yi: nat, di: nat, k: nat): nat
  {
    if y < yi || (y == yi && d < di) then IdsPerDepartment
    else if y == yi && d == di then k
    else 0
  }

  /** Every year key and department key is in place; each list holds Written(...) IDs. */
  predicate FilledUpTo(f: IdFile, yi: nat, di: nat, k: nat)
  {
    && |f| == YearCount
    && forall y :: 0 <= y < YearCount ==>
         && f[y].0 == Digits(FirstYear + y)
         && |f[y].1| == |DepartmentCodes|
         && forall d :: 0 <= d < |DepartmentCodes| ==>
              f[y].1[d] == (DepartmentCodes[d].1, DepartmentList(y, d, Written(y, d, yi, di, k)))
  }

  lemma AppendOne(f: IdFile, yi: nat, di: nat, k: nat)
    requires yi < YearCount && di < |DepartmentCodes| && k < IdsPerDepartment
    requires FilledUpTo(f, yi, di, k)
    ensures var lists := f[yi].1;
            FilledUpTo(f[yi := (f[yi].0, lists[di := (lists[di].0, lists[di].1 + [IdOf(yi, di, k + 1)])])], yi, di, k + 1)
  {
    assert DepartmentList(yi, di, k + 1) == DepartmentList(yi, di, k) + [IdOf(yi, di, k + 1)];
  }

  lemma FilledIsComplete(f: IdFile)
    requires FilledUpTo(f, YearCount, 0, 0)
    ensures f == RollNumbersByYear()
  {
    var r := RollNumbersByYear();
    forall y | 0 <= y < YearCount ensures f[y] == r[y] {
      assert f[y].1 == r[y].1;
    }
  }

  /** The first loop nest of `generate_roll_numbers`: every year key, each with every department name and an empty list. */
  method EmptyTable() returns (byYear: IdFile)
    ensures FilledUpTo(byYear, 0, 0, 0)
  {
    byYear := [];
    for year := FirstYear to FirstYear + YearCount
      invariant |byYear| == year - FirstYear
      invariant forall y :: 0 <= y < |byYear| ==>
                  byYear[y].0 == Digits(FirstYear + y) && |byYear[y].1| == |DepartmentCodes| &&
                  forall d :: 0 <= d < |DepartmentCodes| ==> byYear[y].1[d] == (DepartmentCodes[d].1, [])
    {
      byYear := byYear + [(Digits(year), [])];
      for i := 0 to |DepartmentCodes|
        invariant |byYear| == year - FirstYear + 1
        invariant forall y :: 0 <= y < |byYear| - 1 ==>
                    byYear[y].0 == Digits(FirstYear + y) && |byYear[y].1| == |DepartmentCodes| &&
                    forall d :: 0 <= d < |DepartmentCodes| ==> byYear[y].1[d] == (DepartmentCodes[d].1, [])
        invariant byYear[|byYear| - 1].0 == Digits(year) && |byYear[|byYear| - 1].1| == i
        invariant forall d :: 0 <= d < i ==> byYear[|byYear| - 1].1[d] == (DepartmentCodes[d].1, [])
      {
        var last := |byYear| - 1;
        byYear := byYear[last := (byYear[last].0, byYear[last].1 + [(DepartmentCodes[i].1, [])])];
      }
    }
    assert forall y: nat, d :: 0 <= d < |DepartmentCodes| ==> DepartmentList(y, d, 0) == [];
  }

  /** The innermost loop: the 194 roll numbers of year number yi and department number di, appended in order. */
  method FillDepartment(byYear: IdFile, yi: nat, di: nat) returns (filled: IdFile)
    requires yi < YearCount && di < |DepartmentCodes|
    requires FilledUpTo(byYear, yi, di, 0)
    ensures FilledUpTo(filled, yi, di + 1, 0)
  {
    filled := byYear;
    var yearSuffix := YearSuffix(FirstYear + yi);
    var code := DepartmentCodes[di].0;
    for uniqueId := 1 to IdsPerDepartment + 1
      invariant FilledUpTo(filled, yi, di, uniqueId - 1)
    {
      var rollNumber := "1602-" + yearSuffix + "-" + code + "-" + ZFill(Digits(uniqueId), 3);
      assert rollNumber == IdOf(yi, di, uniqueId);
      AppendOne(filled, yi, di, uniqueId - 1);
      var lists := filled[yi].1;
      filled := filled[yi := (filled[yi].0, lists[di := (lists[di].0, lists[di].1 + [rollNumber])])];
    }
    assert forall y, d :: Written(y, d, yi, di, IdsPerDepartment) == Written(y, d, yi, di + 1, 0);
  }

  /**
   * `generate_roll_numbers` without the final file write: first every year key
   * and every department key with an empty list, then 194 IDs appended to each list.
   * Every key is new when it is set (YearKeysDistinct, DepartmentNamesDistinct),
   * so setting a key appends a pair, and the list for (year, name) sits at
   * position (year - 2020, department number).
   */
  method GenerateRollNumbers() returns (byYear: IdFile)
    ensures byYear == RollNumbersByYear()
  {
    byYear := EmptyTable();
    for yi := 0 to YearCount
      invariant FilledUpTo(byYear, yi, 0, 0)
    {
      for di := 0 to |DepartmentCodes|
        invariant FilledUpTo(byYear, yi, di, 0)
      {
        byYear := FillDepartment(byYear, yi, di);
      }
      assert forall y: nat, d: nat :: d < |DepartmentCodes| ==> Written(y, d, yi, |DepartmentCodes|, 0) == Written(y, d, yi + 1, 0, 0);
    }
    FilledIsComplete(byYear);
  }

  // ---------------------------------------------------------------------
  // What the generated dictionary holds

  lemma YearNumeral(y: nat)
    requires y < YearCount
    ensures Digits(FirstYear + y) == "202" + [DigitChar(y)]
    ensures YearSuffix(FirstYear + y) == "2" + [DigitChar(y)]
  {
    var n := FirstYear + y;
    assert n / 10 == 202 && n % 10 == y;
    assert Digits(202) == "202";
  }

  /** The year keys are exactly "2020" to "2024", in that order. */
  lemma YearKeys()
    ensures |RollNumbersByYear()| == 5
    ensures RollNumbersByYear()[0].0 == "2020" && RollNumbersByYear()[1].0 == "2021" &&
            RollNumbersByYear()[2].0 == "2022" && RollNumbersByYear()[3].0 == "2023" &&
            RollNumbersByYear()[4].0 == "2024"
  {
    YearNumeral(0); YearNumeral(1); YearNumeral(2); YearNumeral(3); YearNumeral(4);
    assert DigitChar(0) == '0' && DigitChar(1) == '1' && DigitChar(2) == '2' && DigitChar(3) == '3' && DigitChar(4) == '4';
  }

  /** Every year maps each department name, in table order, to 194 IDs with sequence numbers 1..194 ascending. */
  lemma DepartmentLists(y: nat, d: nat)
    requires y < YearCount && d < |DepartmentCodes|
    ensures |RollNumbersByYear()[y].1| == 7
    ensures RollNumbersByYear()[y].1[d].0 == DepartmentCodes[d].1
    ensures |RollNumbersByYear()[y].1[d].1| == 194
    ensures forall k :: 0 <= k < 194 ==>
              RollNumbersByYear()[y].1[d].1[k] == IdOf(y, d, k + 1) &&
              Decode(RollNumbersByYear()[y].1[d].1[k]) == Some(ParsedId(FirstYear + y, DepartmentCodes[d].0, k + 1))
  {
    forall s | 1 <= s <= 194
      ensures Decode(IdOf(y, d, s)) == Some(ParsedId(FirstYear + y, DepartmentCodes[d].0, s))
    {
      DecodeRollNumber(y, d, s);
    }
  }

  lemma {:induction false} PaddedLength(s: nat)
    requires s < 1000
    ensures |ZFill(Digits(s), 3)| == 3
  {
    if s >= 100 {
      assert s / 10 >= 10 && s / 10 / 10 < 10;
    } else if s >= 10 {
      assert s / 10 < 10;
    }
  }

  /** Where the three fields of `1602-{a}-{b}-{c}` sit, for fields of widths 2, 3 and 3. */
  lemma FieldsOf(a: string, b: string, c: string)
    requires |a| == 2 && |b| == 3 && |c| == 3
    ensures var id := "1602-" + a + "-" + b + "-" + c;
            && |id| == 15 && id[..5] == "1602-" && id[4] == '-' && id[7] == '-' && id[11] == '-'
            && id[5..7] == a && id[8..11] == b && id[12..15] == c
  {
    var id := "1602-" + a + "-" + b + "-" + c;
    assert id[5..7] == a;
    assert id[8..11] == b;
    assert id[12..15] == c;
  }

  /** Every department code is three digits. */
  lemma CodeShape(d: nat)
    requires d < |DepartmentCodes|
    ensures |DepartmentCodes[d].0| == 3 && AllDigits(DepartmentCodes[d].0)
  {
  }

  /** `1602-YY-DDD-NNN`: fifteen characters with dashes at positions 4, 7 and 11. */
  lemma RollNumberFormat(y: nat, d: nat, s: nat)
    requires y < YearCount && d < |DepartmentCodes| && s < 1000
    ensures var id := IdOf(y, d, s);
            && |id| == 15
            && id[..5] == "1602-"
            && id[4] == '-' && id[7] == '-' && id[11] == '-'
            && id[5..7] == YearSuffix(FirstYear + y) == "2" + [DigitChar(y)]
            && id[8..11] == DepartmentCodes[d].0
            && id[12..15] == ZFill(Digits(s), 3)
            && AllDigits(id[5..7]) && AllDigits(id[8..11]) && AllDigits(id[12..15])
  {
    var a, b, c := YearSuffix(FirstYear + y), DepartmentCodes[d].0, ZFill(Digits(s), 3);
    YearNumeral(y);
    assert AllDigits(a);
    PaddedLength(s);
    ValueOfPadded(s, 3);
    CodeShape(d);
    FieldsOf(a, b, c);
    assert IdOf(y, d, s) == "1602-" + a + "-" + b + "-" + c;
  }

  datatype ParsedId = ParsedId(year: nat, code: string, uniqueId: nat)

  /** Reads an ID of the form 1602-YY-DDD-NNN back into (20YY, DDD, NNN). */
  function Decode(id: string): Option<ParsedId>
  {
    if |id| == 15 && id[..5] == "1602-" && id[7] == '-' && id[11] == '-' &&
       AllDigits(id[5..7]) && AllDigits(id[12..15])
    then Some(ParsedId(2000 + Value(id[5..7]), id[8..11], Value(id[12..15])))
    else None
  }

  /** Every generated ID decodes back to the year, department code and sequence number it was made from. */
  lemma DecodeRollNumber(y: nat, d: nat, s: nat)
    requires y < YearCount && d < |DepartmentCodes| && s < 1000
    ensures Decode(IdOf(y, d, s)) == Some(ParsedId(FirstYear + y, DepartmentCodes[d].0, s))
  {
    RollNumberFormat(y, d, s);
    var id := IdOf(y, d, s);
    var two := "2" + [DigitChar(y)];
    assert two[..1] == "2" && "2"[..0] == [];
    assert Value("2") == 2;
    assert Value(two) == 20 + y;
    ValueOfPadded(s, 3);
  }

  lemma DepartmentCodesDistinct()
    ensures forall a, b :: 0 <= a < b < |DepartmentCodes| ==> DepartmentCodes[a].0 != DepartmentCodes[b].0
  {
  }

  /** Department names are distinct, so each `roll_numbers_by_year[year][name] = []` sets a new key. */
  lemma DepartmentNamesDistinct()
    ensures forall a, b :: 0 <= a < b < |DepartmentCodes| ==> DepartmentCodes[a].1 != DepartmentCodes[b].1
  {
  }

  /** Year keys are distinct, so setting each year's key in the first loop adds a new key. */
  lemma YearKeysDistinct()
    ensures forall a, b :: 0 <= a < b < YearCount ==> RollNumbersByYear()[a].0 != RollNumbersByYear()[b].0
  {
    forall a, b | 0 <= a < b < YearCount ensures RollNumbersByYear()[a].0 != RollNumbersByYear()[b].0 {
      ValueOfDigits(FirstYear + a);
      ValueOfDigits(FirstYear + b);
    }
  }

  /** Different (year, department, sequence number) triples give different IDs. */
  lemma IdOfInjective(y1: nat, d1: nat, s1: nat, y2: nat, d2: nat, s2: nat)
    requires y1 < YearCount && d1 < |DepartmentCodes| && s1 < 1000
    requires y2 < YearCount && d2 < |DepartmentCodes| && s2 < 1000
    requires IdOf(y1, d1, s1) == IdOf(y2, d2, s2)
    ensures y1 == y2 && d1 == d2 && s1 == s2
  {
    DecodeRollNumber(y1, d1, s1);
    DecodeRollNumber(y2, d2, s2);
    DepartmentCodesDistinct();
  }

  /** Five years of seven lists, each list the department's 194 IDs in order. */
  predicate IsTable(f: IdFile)
  {
    && |f| == YearCount
    && forall y :: 0 <= y < YearCount ==>
         && |f[y].1| == |DepartmentCodes|
         && forall d :: 0 <= d < |DepartmentCodes| ==> f[y].1[d].1 == DepartmentList(y, d, IdsPerDepartment)
  }

  lemma GeneratedTable()
    ensures IsTable(RollNumbersByYear())
  {
  }

  lemma TableIdsSound(f: IdFile, x: string)
    requires IsTable(f) && x in Flatten(f)
    ensures exists y, d, s :: 0 <= y < YearCount && 0 <= d < |DepartmentCodes| && 1 <= s <= IdsPerDepartment && x == IdOf(y, d, s)
  {
    InFlatten(f, x);
    var y, d :| 0 <= y < |f| && 0 <= d < |f[y].1| && x in f[y].1[d].1;
    InDepartmentList(y, d, x);
  }

  lemma TableIdsComplete(f: IdFile, y: nat, d: nat, s: nat)
    requires IsTable(f) && y < YearCount && d < |DepartmentCodes| && 1 <= s <= IdsPerDepartment
    ensures IdOf(y, d, s) in Flatten(f)
  {
    var ids := DepartmentList(y, d, IdsPerDepartment);
    assert ids[s - 1] == IdOf(y, d, s);
    assert f[y].1[d].1 == ids;
    InFlatten(f, IdOf(y, d, s));
  }

  /** An ID is in the flattened generated file exactly when it is the roll number of a valid triple. */
  lemma GeneratedIds(x: string)
    ensures x in Flatten(RollNumbersByYear()) <==>
            exists y, d, s :: 0 <= y < YearCount && 0 <= d < |DepartmentCodes| && 1 <= s <= IdsPerDepartment && x == IdOf(y, d, s)
  {
    GeneratedTable();
    if x in Flatten(RollNumbersByYear()) {
      TableIdsSound(RollNumbersByYear(), x);
    }
    if exists y, d, s :: 0 <= y < YearCount && 0 <= d < |DepartmentCodes| && 1 <= s <= IdsPerDepartment && x == IdOf(y, d, s) {
      var y, d, s :| 0 <= y < YearCount && 0 <= d < |DepartmentCodes| && 1 <= s <= IdsPerDepartment && x == IdOf(y, d, s);
      TableIdsComplete(RollNumbersByYear(), y, d, s);
    }
  }

  /** Within one department and year, different sequence numbers give different IDs: they decode differently. */
  lemma SequenceNumbersDiffer(y: nat, d: nat, s1: nat, s2: nat)
    requires y < YearCount && d < |DepartmentCodes| && s1 < 1000 && s2 < 1000 && s1 != s2
    ensures IdOf(y, d, s1) != IdOf(y, d, s2)
  {
    DecodeRollNumber(y, d, s1);
    DecodeRollNumber(y, d, s2);
  }

  /** A list whose k-th entry decodes to sequence number k + 1 has no duplicates. */
  lemma NumberedIdsDistinct(ids: seq<string>)
    requires forall k :: 0 <= k < |ids| ==> Decode(ids[k]).Some? && Decode(ids[k]).value.uniqueId == k + 1
    ensures Distinct(ids)
  {
    forall i, j | 0 <= i < j < |ids| ensures ids[i] != ids[j] {
      assert Decode(ids[i]).value.uniqueId != Decode(ids[j]).value.uniqueId;
    }
  }

  /** The 194 IDs of one department in one year are pairwise different. */
  lemma DepartmentListDistinct(y: nat, d: nat)
    requires y < YearCount && d < |DepartmentCodes|
    ensures Distinct(DepartmentList(y, d, IdsPerDepartment))
  {
    var ids := DepartmentList(y, d, IdsPerDepartment);
    forall k | 0 <= k < |ids| ensures Decode(ids[k]).Some? && Decode(ids[k]).value.uniqueId == k + 1 {
      DecodeRollNumber(y, d, k + 1);
    }
    NumberedIdsDistinct(ids);
  }

  lemma GeneratedListDistinct(y: nat, d: nat)
    requires y < YearCount && d < |DepartmentCodes|
    ensures Distinct(RollNumbersByYear()[y].1[d].1)
  {
    GeneratedList(y, d);
    DepartmentListDistinct(y, d);
  }

  lemma GeneratedList(y: nat, d: nat)
    requires y < YearCount && d < |DepartmentCodes|
    ensures RollNumbersByYear()[y].1[d].1 == DepartmentList(y, d, IdsPerDepartment)
  {
  }

  /** A member of a department list is the roll number of one of its sequence numbers. */
  lemma InDepartmentList(y: nat, d: nat, x: string)
    requires d < |DepartmentCodes| && x in DepartmentList(y, d, IdsPerDepartment)
    ensures exists s :: 1 <= s <= IdsPerDepartment && x == IdOf(y, d, s)
  {
    var a := DepartmentList(y, d, IdsPerDepartment);
    var i :| 0 <= i < |a| && a[i] == x;
    assert a[i] == IdOf(y, d, i + 1);
  }

  lemma DepartmentListsDisjoint(y1: nat, d1: nat, y2: nat, d2: nat, x: string)
    requires y1 < YearCount && d1 < |DepartmentCodes| && y2 < YearCount && d2 < |DepartmentCodes|
    requires y1 != y2 || d1 != d2
    requires x in DepartmentList(y1, d1, IdsPerDepartment)
    ensures x !in DepartmentList(y2, d2, IdsPerDepartment)
  {
    InDepartmentList(y1, d1, x);
    var s1 :| 1 <= s1 <= IdsPerDepartment && x == IdOf(y1, d1, s1);
    if x in DepartmentList(y2, d2, IdsPerDepartment) {
      InDepartmentList(y2, d2, x);
      var s2 :| 1 <= s2 <= IdsPerDepartment && x == IdOf(y2, d2, s2);
      IdOfInjective(y1, d1, s1, y2, d2, s2);
    }
  }

  lemma GeneratedListsDisjoint(y1: nat, d1: nat, y2: nat, d2: nat, x: string)
    requires y1 < YearCount && d1 < |DepartmentCodes| && y2 < YearCount && d2 < |DepartmentCodes|
    requires y1 != y2 || d1 != d2
    requires x in RollNumbersByYear()[y1].1[d1].1
    ensures x !in RollNumbersByYear()[y2].1[d2].1
  {
    GeneratedList(y1, d1);
    GeneratedList(y2, d2);
    DepartmentListsDisjoint(y1, d1, y2, d2, x);
  }

  /** The generated file lists 5 x 7 x 194 = 6790 IDs, no two alike. */
  lemma GeneratedIdsDistinct()
    ensures |Flatten(RollNumbersByYear())| == 6790
    ensures Distinct(Flatten(RollNumbersByYear()))
  {
    var f := RollNumbersByYear();
    FlattenLength(f, 7, 194);
    forall y | 0 <= y < |f| ensures DepartmentsSeparate(f[y].1) {
      forall d | 0 <= d < |f[y].1| ensures Distinct(f[y].1[d].1) {
        GeneratedListDistinct(y, d);
      }
      forall d1, d2, x | 0 <= d1 < |f[y].1| && 0 <= d2 < |f[y].1| && d1 != d2 && x in f[y].1[d1].1
        ensures x !in f[y].1[d2].1
      {
        GeneratedListsDisjoint(y, d1, y, d2, x);
      }
    }
    forall y1, y2, d1, d2, x |
      0 <= y1 < |f| && 0 <= y2 < |f| && y1 != y2 && 0 <= d1 < |f[y1].1| && 0 <= d2 < |f[y2].1| && x in f[y1].1[d1].1
      ensures x !in f[y2].1[d2].1
    {
      GeneratedListsDisjoint(y1, d1, y2, d2, x);
    }
    FlattenDistinct(f);
  }
}
