/** The drug-likeness rule sets evaluated on a phytochemical's descriptors.
    Each rule set is a table of threshold criteria; a criterion whose
    descriptor is NULL is skipped rather than failed. Values and thresholds
    are compared as exact reals, not as doubles. */
module DrugLikeness {
  import opened Wrappers
  import opened Store
  import opened Positions

  /** The six descriptors the rules read. */
  datatype Field = MW | XLogP | TPSA | HBD | HBA | RotB

  /** The descriptor a criterion compares, as an exact number. The counts are
      compared as integers in the source; against integer bounds that is the
      same comparison. */
  function Value(d: DescriptorRecord, f: Field): Option<real> {
    match f
    case MW => d.molecularWeight
    case XLogP => d.xlogp
    case TPSA => d.tpsa
    case HBD => if d.hbd.Some? then Some(d.hbd.value as real) else None
    case HBA => if d.hba.Some? then Some(d.hba.value as real) else None
    case RotB => if d.rotatableBonds.Some? then Some(d.rotatableBonds.value as real) else None
  }

  /** `Above(b)` fails a value over `b`; `Outside(lo, hi)` fails one outside `[lo, hi]`. */
  datatype Check = Above(bound: real) | Outside(lo: real, hi: real)

  datatype Criterion = Criterion(field: Field, check: Check, text: string)

  predicate Violates(c: Criterion, d: DescriptorRecord) {
    match Value(d, c.field)
    case None => false
    case Some(x) =>
      match c.check
      case Above(b) => x > b
      case Outside(lo, hi) => x < lo || x > hi
  }

  datatype RuleSet = RuleSet(criteria: seq<Criterion>, note: string)

  /** One rule set's verdict: `failCount` is `|fails|` and `pass` is `failCount == 0`. */
  datatype RuleResult = RuleResult(pass: bool, failCount: nat, fails: seq<string>, note: string)

  predicate WellFormed(r: RuleResult) {
    r.failCount == |r.fails| && (r.pass <==> r.failCount == 0)
  }

  const Lipinski := RuleSet([
    Criterion(MW, Above(500.0), "MW > 500"),
    Criterion(XLogP, Above(5.0), "XlogP > 5"),
    Criterion(HBD, Above(5.0), "HBD > 5"),
    Criterion(HBA, Above(10.0), "HBA > 10")], "Rule of 5")

  const Veber := RuleSet([
    Criterion(RotB, Above(10.0), "RotB > 10"),
    Criterion(TPSA, Above(140.0), "TPSA > 140")], "Oral bioavailability")

  /** The labels use an en dash and, for the negative bound, a minus sign. */
  const Ghose := RuleSet([
    Criterion(MW, Outside(160.0, 480.0), "MW not in 160\U{2013}480"),
    Criterion(XLogP, Outside(-0.4, 5.6), "XLogP not in \U{2212}0.4\U{2013}5.6")],
    "Drug-likeness (Ghose)")

  const Egan := RuleSet([
    Criterion(TPSA, Above(131.6), "TPSA > 131.6"),
    Criterion(XLogP, Above(5.88), "XlogP > 5.88")], "Absorption/permeation")

  const Muegge := RuleSet([
    Criterion(MW, Outside(200.0, 600.0), "MW not in 200\U{2013}600"),
    Criterion(XLogP, Above(5.0), "XLogP > 5"),
    Criterion(TPSA, Above(150.0), "TPSA > 150"),
    Criterion(HBD, Above(5.0), "HBD > 5"),
    Criterion(HBA, Above(10.0), "HBA > 10"),
    Criterion(RotB, Above(15.0), "RotB > 15")], "Drug-likeness (Muegge)")

  /** Which criteria of `cs` the row violates, position by position. */
  function Flags(cs: seq<Criterion>, d: DescriptorRecord): (f: seq<bool>)
    ensures |f| == |cs| && forall i :: 0 <= i < |cs| ==> f[i] == Violates(cs[i], d)
  {
    seq(|cs|, i requires 0 <= i < |cs| => Violates(cs[i], d))
  }

  /** The positions of the violated criteria: exactly those, each once, in
      table order. */
  function Violations(cs: seq<Criterion>, d: DescriptorRecord): (ix: seq<nat>)
    ensures Increasing(ix)
    ensures forall j :: 0 <= j < |ix| ==> ix[j] < |cs| && Violates(cs[ix[j]], d)
    ensures forall i :: 0 <= i < |cs| && Violates(cs[i], d) ==> i in ix
  {
    Where(Flags(cs, d))
  }

  /** The labels of the violated criteria, in table order: one label per
      violated criterion and nothing else. */
  function FailedLabels(cs: seq<Criterion>, d: DescriptorRecord): (r: seq<string>)
    ensures |r| == |Violations(cs, d)|
    ensures forall j :: 0 <= j < |r| ==> r[j] == cs[Violations(cs, d)[j]].text
    ensures |r| <= |cs|
    ensures forall l :: l in r ==> exists c :: c in cs && Violates(c, d) && c.text == l
    ensures forall c :: c in cs && Violates(c, d) ==> c.text in r
    ensures r == [] <==> forall c :: c in cs ==> !Violates(c, d)
    decreases |cs|
  {
    if cs == [] then []
    else
      var rest := FailedLabels(cs[1..], d);
      LabelsCons(cs, d, rest);
      (if Violates(cs[0], d) then [cs[0].text] else []) + rest
  }

  /** The violations of a table with one more criterion in front. */
  lemma {:induction false} ViolationsCons(cs: seq<Criterion>, d: DescriptorRecord)
    requires |cs| > 0
    ensures Violations(cs, d) == (if Violates(cs[0], d) then [0] else []) + Shift(Violations(cs[1..], d))
  {
    assert Flags(cs, d)[1..] == Flags(cs[1..], d);
  }

  /** Labels that follow the tail's violations, with the head's label in
      front, follow the whole table's violations. */
  lemma {:induction false} LabelsCons(cs: seq<Criterion>, d: DescriptorRecord, rest: seq<string>)
    requires |cs| > 0
    requires |rest| == |Violations(cs[1..], d)|
    requires forall j :: 0 <= j < |rest| ==> rest[j] == cs[1..][Violations(cs[1..], d)[j]].text
    ensures var r := (if Violates(cs[0], d) then [cs[0].text] else []) + rest;
      |r| == |Violations(cs, d)| && forall j :: 0 <= j < |r| ==> r[j] == cs[Violations(cs, d)[j]].text
  {
    ViolationsCons(cs, d);
    LabelsShift(cs, Violates(cs[0], d), Violations(cs[1..], d), rest);
  }

  /** Labels read through a tail's positions, with an optional head label. */
  lemma LabelsShift(cs: seq<Criterion>, b: bool, tail: seq<nat>, rest: seq<string>)
    requires |cs| > 0 && |rest| == |tail|
    requires forall j :: 0 <= j < |tail| ==> tail[j] < |cs| - 1 && rest[j] == cs[1..][tail[j]].text
    ensures var r := (if b then [cs[0].text] else []) + rest;
      var ix := (if b then [0] else []) + Shift(tail);
      |r| == |ix| && forall j :: 0 <= j < |r| ==> ix[j] < |cs| && r[j] == cs[ix[j]].text
  {
    var h: seq<string> := if b then [cs[0].text] else [];
    var hix: seq<nat> := if b then [0] else [];
    var ix := hix + Shift(tail);
    var r := h + rest;
    forall j | 0 <= j < |r| ensures ix[j] < |cs| && r[j] == cs[ix[j]].text {
      if j >= |h| {
        var t := tail[j - |h|];
        assert ix[j] == t + 1 && r[j] == rest[j - |h|];
        assert cs[1..][t] == cs[t + 1];
      }
    }
  }

  /** One rule set on one descriptor row. */
  function Evaluate(rs: RuleSet, d: DescriptorRecord): (r: RuleResult)
    ensures WellFormed(r) && r.note == rs.note
    ensures r.pass <==> forall c :: c in rs.criteria ==> !Violates(c, d)
    ensures forall c :: c in rs.criteria && Violates(c, d) ==> c.text in r.fails
    ensures forall l :: l in r.fails ==> exists c :: c in rs.criteria && Violates(c, d) && c.text == l
    ensures r.failCount == |Violations(rs.criteria, d)|
    ensures forall j :: 0 <= j < |r.fails| ==> r.fails[j] == rs.criteria[Violations(rs.criteria, d)[j]].text
  {
    var fails := FailedLabels(rs.criteria, d);
    RuleResult(|fails| == 0, |fails|, fails, rs.note)
  }

  /** The result dictionary, one entry per rule set. */
  datatype Report = Report(
    lipinski: RuleResult, veber: RuleResult, ghose: RuleResult, egan: RuleResult, muegge: RuleResult)

  /** All six descriptors are NULL. */
  predicate NoValues(d: DescriptorRecord) {
    forall f: Field :: Value(d, f).None?
  }

  function CalcDruglikenessRules(d: DescriptorRecord): (r: Report)
    ensures WellFormed(r.lipinski) && WellFormed(r.veber) && WellFormed(r.ghose)
    ensures WellFormed(r.egan) && WellFormed(r.muegge)
    ensures NoValues(d) ==>
      r.lipinski.pass && r.veber.pass && r.ghose.pass && r.egan.pass && r.muegge.pass
    ensures r == Report(Evaluate(Lipinski, d), Evaluate(Veber, d), Evaluate(Ghose, d),
                        Evaluate(Egan, d), Evaluate(Muegge, d))
  {
    NullPasses(Lipinski, d);
    NullPasses(Veber, d);
    NullPasses(Ghose, d);
    NullPasses(Egan, d);
    NullPasses(Muegge, d);
    Report(Evaluate(Lipinski, d), Evaluate(Veber, d), Evaluate(Ghose, d),
           Evaluate(Egan, d), Evaluate(Muegge, d))
  }

  /** With every descriptor NULL no criterion can fail. */
  lemma NullPasses(rs: RuleSet, d: DescriptorRecord)
    ensures NoValues(d) ==> Evaluate(rs, d).pass
  {
    if NoValues(d) {
      forall c | c in rs.criteria ensures !Violates(c, d) {
        assert Value(d, c.field).None?;
      }
    }
  }

  /** The criteria of `cs` that do not read `f`. */
  function Without(cs: seq<Criterion>, f: Field): (r: seq<Criterion>)
    ensures forall c :: c in r <==> c in cs && c.field != f
  {
    if cs == [] then []
    else (if cs[0].field == f then [] else [cs[0]]) + Without(cs[1..], f)
  }

  /** A NULL descriptor never produces a failure: the failure list is the same
      as if every criterion on it were struck from the table. */
  lemma {:induction false} NullNeverFails(cs: seq<Criterion>, d: DescriptorRecord, f: Field)
    requires Value(d, f).None?
    ensures FailedLabels(cs, d) == FailedLabels(Without(cs, f), d)
  {
    if cs != [] {
      NullNeverFails(cs[1..], d, f);
      var rest := Without(cs[1..], f);
      if cs[0].field == f {
        assert Without(cs, f) == rest;
      } else {
        assert Without(cs, f) == [cs[0]] + rest;
        assert (Without(cs, f))[1..] == rest;
      }
    }
  }

  /** Raising a present descriptor under `Above` criteria never removes a failure. */
  lemma {:induction false} FailuresMonotone(cs: seq<Criterion>, d: DescriptorRecord, e: DescriptorRecord)
    requires forall c :: c in cs ==> c.check.Above?
    requires forall f: Field :: Value(d, f).Some? ==> Value(e, f).Some? && Value(d, f).value <= Value(e, f).value
    ensures forall l :: l in FailedLabels(cs, d) ==> l in FailedLabels(cs, e)
  {
    if cs != [] {
      FailuresMonotone(cs[1..], d, e);
      assert Violates(cs[0], d) ==> Violates(cs[0], e) by {
        if Violates(cs[0], d) {
          assert Value(d, cs[0].field).Some?;
        }
      }
    }
  }

  /** mw=600, xlogp=6, hbd=2, hba=4: Lipinski fails exactly on weight and logP. */
  lemma LipinskiExample()
    ensures
      var d := NoDescriptors.(molecularWeight := Some(600.0), xlogp := Some(6.0), hbd := Some(2), hba := Some(4));
      Evaluate(Lipinski, d) == RuleResult(false, 2, ["MW > 500", "XlogP > 5"], "Rule of 5")
  {
    hide FailedLabels, Evaluate, Violations, Flags, Where;
    var d := NoDescriptors.(molecularWeight := Some(600.0), xlogp := Some(6.0), hbd := Some(2), hba := Some(4));
    LipinskiFailures(d);
    assert |["MW > 500", "XlogP > 5"]| == 2;
    EvaluateOf(Lipinski, d, ["MW > 500", "XlogP > 5"]);
  }

  /** The failure list of the example, criterion by criterion. */
  lemma LipinskiFailures(d: DescriptorRecord)
    requires d == NoDescriptors.(molecularWeight := Some(600.0), xlogp := Some(6.0), hbd := Some(2), hba := Some(4))
    ensures FailedLabels(Lipinski.criteria, d) == ["MW > 500", "XlogP > 5"]
  {
    hide *;
    var cs := Lipinski.criteria;
    LipinskiCriteria();
    LipinskiVerdicts(d);
    var c0, c1, c2, c3 := cs[0], cs[1], cs[2], cs[3];
    FailedLabelsCons(c3, [], d);
    FailedLabelsCons(c2, [c3] + [], d);
    FailedLabelsCons(c1, [c2] + ([c3] + []), d);
    FailedLabelsCons(c0, [c1] + ([c2] + ([c3] + [])), d);
    assert FailedLabels([], d) == [] by {
      FailedLabelsEmpty(d);
    }
  }

  /** The Lipinski table, criterion by criterion. */
  lemma LipinskiCriteria()
    ensures var cs := Lipinski.criteria;
      |cs| == 4 && cs == [cs[0]] + ([cs[1]] + ([cs[2]] + ([cs[3]] + [])))
      && cs[0].text == "MW > 500" && cs[1].text == "XlogP > 5"
  {
  }

  /** The example violates the first two Lipinski criteria only. */
  lemma LipinskiVerdicts(d: DescriptorRecord)
    requires d == NoDescriptors.(molecularWeight := Some(600.0), xlogp := Some(6.0), hbd := Some(2), hba := Some(4))
    ensures var cs := Lipinski.criteria;
      |cs| == 4 && Violates(cs[0], d) && Violates(cs[1], d) && !Violates(cs[2], d) && !Violates(cs[3], d)
  {
  }

  lemma FailedLabelsEmpty(d: DescriptorRecord)
    ensures FailedLabels([], d) == []
  {
  }

  /** The verdict is read off the failure list. */
  lemma EvaluateOf(rs: RuleSet, d: DescriptorRecord, fails: seq<string>)
    requires FailedLabels(rs.criteria, d) == fails
    ensures Evaluate(rs, d) == RuleResult(|fails| == 0, |fails|, fails, rs.note)
  {
  }

  /** The failures of a table with one more criterion in front. */
  lemma FailedLabelsCons(c: Criterion, cs: seq<Criterion>, d: DescriptorRecord)
    ensures FailedLabels([c] + cs, d) == (if Violates(c, d) then [c.text] else []) + FailedLabels(cs, d)
  {
    assert ([c] + cs)[0] == c && ([c] + cs)[1..] == cs;
  }
}
