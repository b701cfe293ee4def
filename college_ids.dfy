/**
 * The identity file college_ids.json: a JSON object from year to a JSON
 * object from department name to that department's list of student IDs.
 * JSON objects keep their insertion order when Python loads them, so each
 * object is an ordered sequence of (key, value) pairs. A loaded object holds
 * each key once; the sequences do not enforce this, and nothing proved here
 * depends on it (repeated keys, where `json.load` keeps the last value, are
 * not modelled).
 */
module CollegeIds {

  /** One year's entry: department name -> IDs, in file order. */
  type DepartmentIds = seq<(string, seq<string>)>

  /** The whole file: year -> departments, in file order. */
  type IdFile = seq<(string, DepartmentIds)>

  /** Every department's list of one year, concatenated in file order. */
  function FlattenDepartments(ds: DepartmentIds): seq<string>
  {
    if |ds| == 0 then [] else FlattenDepartments(ds[..|ds| - 1]) + ds[|ds| - 1].1
  }

  /** Every department list of every year, concatenated in file order. */
  function Flatten(f: IdFile): seq<string>
  {
    if |f| == 0 then [] else Flatten(f[..|f| - 1]) + FlattenDepartments(f[|f| - 1].1)
  }

  predicate Distinct(s: seq<string>) {
    forall i, j :: 0 <= i < j < |s| ==> s[i] != s[j]
  }

  lemma {:induction false} InFlattenDepartments(ds: DepartmentIds, x: string)
    ensures x in FlattenDepartments(ds) <==> exists d :: 0 <= d < |ds| && x in ds[d].1
  {
    if |ds| > 0 {
      var init := ds[..|ds| - 1];
      InFlattenDepartments(init, x);
      assert forall d :: 0 <= d < |init| ==> init[d] == ds[d];
    }
  }

  /** An ID is in the flattened file exactly when some department list of some year holds it. */
  lemma {:induction false} InFlatten(f: IdFile, x: string)
    ensures x in Flatten(f) <==>
            exists y, d :: 0 <= y < |f| && 0 <= d < |f[y].1| && x in f[y].1[d].1
  {
    if |f| > 0 {
      var init := f[..|f| - 1];
      InFlatten(init, x);
      InFlattenDepartments(f[|f| - 1].1, x);
      assert forall y :: 0 <= y < |init| ==> init[y] == f[y];
    }
  }

  lemma DistinctConcat(a: seq<string>, b: seq<string>)
    requires Distinct(a) && Distinct(b)
    requires forall x :: x in a ==> x !in b
    ensures Distinct(a + b)
  {
    var c := a + b;
    forall i, j | 0 <= i < j < |c| ensures c[i] != c[j] {
      if i < |a| && j >= |a| {
        assert c[i] in a && c[j] == b[j - |a|];
      }
    }
  }

  /** Each list of a given year has no repeats, and two different departments share no ID. */
  predicate DepartmentsSeparate(ds: DepartmentIds) {
    && (forall d :: 0 <= d < |ds| ==> Distinct(ds[d].1))
    && (forall d1, d2, x :: 0 <= d1 < |ds| && 0 <= d2 < |ds| && d1 != d2 && x in ds[d1].1 ==> x !in ds[d2].1)
  }

  lemma {:induction false} FlattenDepartmentsDistinct(ds: DepartmentIds)
    requires DepartmentsSeparate(ds)
    ensures Distinct(FlattenDepartments(ds))
  {
    if |ds| > 0 {
      var init := ds[..|ds| - 1];
      assert forall d :: 0 <= d < |init| ==> init[d] == ds[d];
      FlattenDepartmentsDistinct(init);
      forall x | x in FlattenDepartments(init) ensures x !in ds[|ds| - 1].1 {
        InFlattenDepartments(init, x);
      }
      DistinctConcat(FlattenDepartments(init), ds[|ds| - 1].1);
    }
  }

  /** No list repeats an ID and no two lists of the file (of any years) share one. */
  predicate ListsSeparate(f: IdFile) {
    && (forall y :: 0 <= y < |f| ==> DepartmentsSeparate(f[y].1))
    && (forall y1, y2, d1, d2, x ::
          (0 <= y1 < |f| && 0 <= y2 < |f| && y1 != y2 && 0 <= d1 < |f[y1].1| && 0 <= d2 < |f[y2].1| &&
           x in f[y1].1[d1].1) ==> x !in f[y2].1[d2].1)
  }

  /** When the lists are separate, the flattened file lists every ID once. */
  lemma {:induction false} FlattenDistinct(f: IdFile)
    requires ListsSeparate(f)
    ensures Distinct(Flatten(f))
  {
    if |f| > 0 {
      var init := f[..|f| - 1];
      var last := f[|f| - 1].1;
      assert forall y :: 0 <= y < |init| ==> init[y] == f[y];
      FlattenDistinct(init);
      FlattenDepartmentsDistinct(last);
      forall x | x in Flatten(init) ensures x !in FlattenDepartments(last) {
        InFlatten(init, x);
        InFlattenDepartments(last, x);
      }
      DistinctConcat(Flatten(init), FlattenDepartments(last));
    }
  }

  /** Every year has `departments` lists, each of `perList` IDs. */
  predicate Uniform(f: IdFile, departments: nat, perList: nat) {
    forall y :: 0 <= y < |f| ==> |f[y].1| == departments && forall d :: 0 <= d < departments ==> |f[y].1[d].1| == perList
  }

  lemma MulStep(a: nat, k: nat)
    ensures a * k + k == (a + 1) * k
  {
  }

  lemma {:induction false} FlattenDepartmentsLength(ds: DepartmentIds, perList: nat)
    requires forall d :: 0 <= d < |ds| ==> |ds[d].1| == perList
    ensures |FlattenDepartments(ds)| == |ds| * perList
  {
    if |ds| > 0 {
      var init := ds[..|ds| - 1];
      assert forall d :: 0 <= d < |init| ==> init[d] == ds[d];
      FlattenDepartmentsLength(init, perList);
      MulStep(|ds| - 1, perList);
    }
  }

  lemma {:induction false} FlattenLength(f: IdFile, departments: nat, perList: nat)
    requires Uniform(f, departments, perList)
    ensures |Flatten(f)| == |f| * (departments * perList)
  {
    if |f| > 0 {
      var init := f[..|f| - 1];
      assert forall y :: 0 <= y < |init| ==> init[y] == f[y];
      FlattenLength(init, departments, perList);
      FlattenDepartmentsLength(f[|f| - 1].1, perList);
      MulStep(|f| - 1, departments * perList);
    }
  }
}
