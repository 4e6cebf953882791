/** The facility-suitability stage: the veto-then-two-lists decision for one item, the model
    fallback validated against the four facility types, and the in-place pass that fills the
    "Facility Suitability" column. */
module Facilitize {
  import opened Frame
  import opened Text
  import opened Keywords
  import opened Completion

  const RuralClinics: string := "Rural Clinics"
  const DistrictHospitals: string := "District Hospitals"
  const Both: string := "Both"

  /** The four facility types, in the order the fuzzy match tries them; the last one is the
      sentinel shared with the reply validator. */
  const FacilityTypes: seq<string> := [RuralClinics, DistrictHospitals, Both, NeedsReview]

  /** Equipment a basic rural clinic can use. */
  const RuralClinicEquipment: seq<string> :=
    ["blood pressure monitor", "thermometer", "stethoscope", "weight scale",
     "glucometer", "hemoglobinometer", "nebulizer", "oxygen concentrator",
     "fetoscope", "delivery kit", "wound care", "dressing", "bandage",
     "sterilization", "autoclave", "pressure cooker", "rapid test",
     "hiv test", "malaria test", "pregnancy test", "urinalysis", "dipstick",
     "first aid", "oral medication", "injection", "immunization", "vaccine",
     "iv fluid", "cannula", "catheter", "splint", "crutch"]

  /** Equipment that needs district-hospital capabilities. */
  const DistrictHospitalEquipment: seq<string> :=
    ["ventilator", "ecg", "electrocardiograph", "chemistry analyzer",
     "hematology analyzer", "operating table", "surgical", "anesthesia",
     "electrosurgical", "ceiling light", "operating light", "slit lamp",
     "ophthalmology", "x-ray", "radiography", "ultrasound", "imaging",
     "incubator", "blood bank", "refrigerator", "cpap", "icu", "intensive care",
     "cesarean", "theatre", "surgery", "fracture", "biopsy", "endoscopy",
     "laparoscopy", "microscope", "centrifuge", "culture", "microbiology",
     "monitor", "patient monitor", "fetal monitor", "cross matching", "transfusion"]

  /** Words that send an item to review whatever the two equipment lists say. */
  const NeedsReviewKeywords: seq<string> :=
    ["expired", "damaged", "recalled", "obsolete", "discontinued",
     "complex", "specialized", "calibration required", "maintenance intensive",
     "proprietary", "requires training", "missing components", "advanced",
     "high power", "continuous electricity", "climate controlled", "mri", "ct scan",
     "radiation", "radioactive", "nuclear", "restricted", "controlled substance"]

  /** The column the stage fills. */
  const FacilityColumn: string := "Facility Suitability"

  /** The sentinel is one of the facility types. */
  lemma SentinelIsFacilityType()
    ensures NeedsReview in FacilityTypes
  {
    assert FacilityTypes[3] == NeedsReview;
  }

  /** The user message sent to the model: the description, then the category and the vendor
      when they are present. */
  function FacilityContext(description: string, category: Cell, vendor: Cell): (context: string)
    ensures IsPrefix("Description: " + description, context)
  {
    var head := "Description: " + description;
    var withCategory := head + (if Present(category) then ", Category: " + category.value else "");
    var context := withCategory + (if Present(vendor) then ", Vendor: " + vendor.value else "");
    IsPrefixIff(head, context);
    assert context[..|head|] == head;
    context
  }

  /** Category and vendor are appended in that order when both are present. */
  lemma FacilityContextBoth(d: string, c: string, v: string)
    requires c != "" && v != ""
    ensures FacilityContext(d, Some(c), Some(v)) == "Description: " + d + ", Category: " + c + ", Vendor: " + v
  {
  }

  /** A missing, NaN or empty category and vendor add nothing. */
  lemma FacilityContextBare(d: string, category: Cell, vendor: Cell)
    requires !Present(category) && !Present(vendor)
    ensures FacilityContext(d, category, vendor) == "Description: " + d
  {
  }

  /** A category without a vendor ends the message. */
  lemma FacilityContextCategoryOnly(d: string, c: string, vendor: Cell)
    requires c != "" && !Present(vendor)
    ensures FacilityContext(d, Some(c), vendor) == "Description: " + d + ", Category: " + c
  {
  }

  /** A vendor without a category is appended directly after the description. */
  lemma FacilityContextVendorOnly(d: string, category: Cell, v: string)
    requires !Present(category) && v != ""
    ensures FacilityContext(d, category, Some(v)) == "Description: " + d + ", Vendor: " + v
  {
  }

  /** The model is asked exactly when there is a description and none of the three keyword
      lists occurs in it. */
  predicate ConsultsModel(description: Cell) {
    Present(description)
    && !AnyHit(Lower(description.value), NeedsReviewKeywords)
    && !AnyHit(Lower(description.value), RuralClinicEquipment)
    && !AnyHit(Lower(description.value), DistrictHospitalEquipment)
  }

  /** The facility type of one item; `service` answers the user message sent to the model. */
  function FacilitySuitability(description: Cell, category: Cell, vendor: Cell, service: string -> Reply): (facility: string)
    ensures facility in FacilityTypes
  {
    SentinelIsFacilityType();
    if !Present(description) then NeedsReview
    else
      var text := Lower(description.value);
      if AnyHit(text, NeedsReviewKeywords) then NeedsReview
      else
        var rural := AnyHit(text, RuralClinicEquipment);
        var district := AnyHit(text, DistrictHospitalEquipment);
        if rural && district then Both
        else if rural then RuralClinics
        else if district then DistrictHospitals
        else ClassifyReply(service(FacilityContext(description.value, category, vendor)), FacilityTypes)
  }

  /** An empty or missing description needs review, and the model is not asked. */
  lemma BlankDescriptionNeedsReview(description: Cell, category: Cell, vendor: Cell, service: string -> Reply)
    requires !Present(description)
    ensures !ConsultsModel(description)
    ensures FacilitySuitability(description, category, vendor, service) == NeedsReview
  {
  }

  /** The veto list is searched first: a needs-review word anywhere in the lower-cased
      description decides, whatever the equipment lists would say. */
  lemma VetoComesFirst(description: Cell, category: Cell, vendor: Cell, service: string -> Reply, k: int)
    requires Present(description) && 0 <= k < |NeedsReviewKeywords|
    requires Contains(Lower(description.value), NeedsReviewKeywords[k])
    ensures !ConsultsModel(description)
    ensures FacilitySuitability(description, category, vendor, service) == NeedsReview
  {
    AnyHitIff(Lower(description.value), NeedsReviewKeywords);
  }

  /** Without a veto word, the two equipment lists are searched independently and give a
      four-way table; only when neither list occurs is the model's validated reply used. */
  lemma DecisionTable(description: Cell, category: Cell, vendor: Cell, service: string -> Reply)
    requires Present(description)
    requires forall k :: 0 <= k < |NeedsReviewKeywords| ==> !Contains(Lower(description.value), NeedsReviewKeywords[k])
    ensures var text := Lower(description.value);
      var rural := exists k :: 0 <= k < |RuralClinicEquipment| && Contains(text, RuralClinicEquipment[k]);
      var district := exists k :: 0 <= k < |DistrictHospitalEquipment| && Contains(text, DistrictHospitalEquipment[k]);
      var facility := FacilitySuitability(description, category, vendor, service);
      (rural && district ==> facility == Both)
      && (rural && !district ==> facility == RuralClinics)
      && (!rural && district ==> facility == DistrictHospitals)
      && (!rural && !district <==> ConsultsModel(description))
      && (!rural && !district ==>
            facility == ClassifyReply(service(FacilityContext(description.value, category, vendor)), FacilityTypes))
  {
    var text := Lower(description.value);
    AnyHitIff(text, NeedsReviewKeywords);
    AnyHitIff(text, RuralClinicEquipment);
    AnyHitIff(text, DistrictHospitalEquipment);
  }

  /** When no model call is made, the model cannot influence the answer. */
  lemma RulesIgnoreModel(description: Cell, category: Cell, vendor: Cell, service: string -> Reply, other: string -> Reply)
    requires !ConsultsModel(description)
    ensures FacilitySuitability(description, category, vendor, service) == FacilitySuitability(description, category, vendor, other)
  {
  }

  /** The reply "Rural Clinic" that the prompt asks for is not a facility type, and no type
      occurs in it (the plural is longer), so it ends up as the sentinel. */
  lemma RuralClinicReplyNeedsReview(reply: string, usage: nat)
    requires reply == "Rural Clinic"
    ensures ClassifyReply(Completion(Some(reply), usage), FacilityTypes) == NeedsReview
  {
    RuralClinicMatchesNone(reply);
    UnmatchedReply(reply, FacilityTypes, usage);
  }

  lemma RuralClinicMatchesNone(reply: string)
    requires reply == "Rural Clinic"
    ensures forall k :: 0 <= k < |reply| ==> reply[k] != ':'
    ensures reply != [] && !IsSpace(reply[0]) && !IsSpace(reply[|reply| - 1])
    ensures reply !in FacilityTypes
    ensures forall k :: 0 <= k < |FacilityTypes| ==> !Contains(Lower(reply), Lower(FacilityTypes[k]))
  {
    assert reply[0] != NeedsReview[0];
    var lowered := Lower(reply);
    LowerMissing(reply, 'b');
    LowerMissing(reply, 'd');
    forall k | 0 <= k < |FacilityTypes| ensures !Contains(lowered, Lower(FacilityTypes[k])) {
      if k < 2 {
        LongerNotContained(lowered, Lower(FacilityTypes[k]));
      } else if k == 2 {
        assert Lower(Both)[0] == 'b';
        MissingChar(lowered, Lower(Both), 'b');
      } else {
        assert Lower(NeedsReview)[3] == 'd';
        MissingChar(lowered, Lower(NeedsReview), 'd');
      }
    }
  }

  /** Likewise "District Hospital": the plural is longer and no other type occurs in it. */
  lemma DistrictHospitalReplyNeedsReview(reply: string, usage: nat)
    requires reply == "District Hospital"
    ensures ClassifyReply(Completion(Some(reply), usage), FacilityTypes) == NeedsReview
  {
    DistrictHospitalMatchesNone(reply);
    UnmatchedReply(reply, FacilityTypes, usage);
  }

  lemma DistrictHospitalMatchesNone(reply: string)
    requires reply == "District Hospital"
    ensures forall k :: 0 <= k < |reply| ==> reply[k] != ':'
    ensures reply != [] && !IsSpace(reply[0]) && !IsSpace(reply[|reply| - 1])
    ensures reply !in FacilityTypes
    ensures forall k :: 0 <= k < |FacilityTypes| ==> !Contains(Lower(reply), Lower(FacilityTypes[k]))
  {
    assert reply[0] != RuralClinics[0] && reply[0] != Both[0] && reply[0] != NeedsReview[0];
    DistrictHospitalLetters(reply);
    NoTypeInDistrictLike(reply);
  }

  lemma DistrictHospitalLetters(reply: string)
    requires reply == "District Hospital"
    ensures forall k :: 0 <= k < |reply| ==> reply[k] !in "uUbBnN"
  {
  }

  /** A text shorter than "District Hospitals" without the letters u, b and n contains no
      facility type, ignoring case. */
  lemma NoTypeInDistrictLike(t: string)
    requires |t| < |DistrictHospitals|
    requires forall k :: 0 <= k < |t| ==> t[k] !in "uUbBnN"
    ensures forall k :: 0 <= k < |FacilityTypes| ==> !Contains(Lower(t), Lower(FacilityTypes[k]))
  {
    var lowered := Lower(t);
    LowerMissing(t, 'u');
    LowerMissing(t, 'b');
    LowerMissing(t, 'n');
    forall k | 0 <= k < |FacilityTypes| ensures !Contains(lowered, Lower(FacilityTypes[k])) {
      if k == 0 {
        assert Lower(RuralClinics)[1] == 'u';
        MissingChar(lowered, Lower(RuralClinics), 'u');
      } else if k == 1 {
        LongerNotContained(lowered, Lower(DistrictHospitals));
      } else if k == 2 {
        assert Lower(Both)[0] == 'b';
        MissingChar(lowered, Lower(Both), 'b');
      } else {
        assert Lower(NeedsReview)[0] == 'n';
        MissingChar(lowered, Lower(NeedsReview), 'n');
      }
    }
  }

  /** "Both Settings" is not a facility type, but "both" is the first type occurring in it. */
  lemma BothSettingsReplyIsBoth(reply: string, usage: nat)
    requires reply == "Both Settings"
    ensures ClassifyReply(Completion(Some(reply), usage), FacilityTypes) == Both
  {
    BothSettingsMatchesBoth(reply);
    FuzzyReply(reply, FacilityTypes, usage, 2);
  }

  lemma BothSettingsMatchesBoth(reply: string)
    requires reply == "Both Settings"
    ensures forall k :: 0 <= k < |reply| ==> reply[k] != ':'
    ensures reply != [] && !IsSpace(reply[0]) && !IsSpace(reply[|reply| - 1])
    ensures reply !in FacilityTypes
    ensures FirstHitAt(Lower(reply), LabelTable(FacilityTypes), 2) && FacilityTypes[2] == Both
  {
    assert reply[0] != RuralClinics[0] && reply[0] != DistrictHospitals[0] && reply[0] != NeedsReview[0];
    assert |reply| != |Both|;
    assert forall k :: 0 <= k < |reply| ==> reply[k] !in "rRdD";
    assert reply[..|Both|] == Both;
    BothFirst(reply);
  }

  /** A text that starts with "Both" and lacks the letters r and d has "Both" as the first
      facility type occurring in it, ignoring case. */
  lemma BothFirst(t: string)
    requires |Both| <= |t| && t[..|Both|] == Both
    requires forall k :: 0 <= k < |t| ==> t[k] !in "rRdD"
    ensures FirstHitAt(Lower(t), LabelTable(FacilityTypes), 2)
  {
    var lowered := Lower(t);
    LowerMissing(t, 'r');
    LowerMissing(t, 'd');
    assert Lower(RuralClinics)[0] == 'r';
    MissingChar(lowered, Lower(RuralClinics), 'r');
    assert Lower(DistrictHospitals)[0] == 'd';
    MissingChar(lowered, Lower(DistrictHospitals), 'd');
    IsPrefixIff(Both, t);
    LowerPrefix(Both, t);
    assert Contains(lowered, Lower(Both));
  }

  // ---------------------------------------------------------------------------------------
  // The column pass

  /** `df.loc[i, "Facility Suitability"] = determine_facility_suitability(...)` for one row,
      where the description, category and vendor are read only when the header has those
      columns. */
  function WithFacility(header: seq<string>, row: Row, categoryCol: string, service: string -> Reply): (updated: Row)
    ensures FacilityColumn in updated
    ensures updated[FacilityColumn].Some? && updated[FacilityColumn].value in FacilityTypes
    ensures forall col :: col != FacilityColumn ==> CellOf(updated, col) == CellOf(row, col)
  {
    row[FacilityColumn := Some(FacilitySuitability(
      Field(header, row, "DESCRIPTION", Some("")),
      Field(header, row, categoryCol, None),
      Field(header, row, "VENDOR_NAME", None),
      service))]
  }

  /** All rows after the pass, for rows whose facility column has been reset. */
  function FacilityRows(header: seq<string>, cleared: seq<Row>, categoryCol: string, service: string -> Reply): (result: seq<Row>)
    ensures |result| == |cleared|
    ensures forall i :: 0 <= i < |cleared| ==> result[i] == WithFacility(header, cleared[i], categoryCol, service)
  {
    seq(|cleared|, i requires 0 <= i < |cleared| => WithFacility(header, cleared[i], categoryCol, service))
  }

  /** The whole pass on the rows as read: reset the column, then classify every row. */
  function FacilityPass(columns: seq<string>, rows: seq<Row>, categoryCol: string, service: string -> Reply): (result: seq<Row>)
    ensures |result| == |rows|
  {
    FacilityRows(WithColumn(columns, FacilityColumn), ClearColumn(rows, FacilityColumn), categoryCol, service)
  }

  /** Rows processed before a pause: one pause after every 50 rows, none after the last. */
  const BatchSize: nat := 50

  /** `process_csv` on the table held in `rows` (with header `columns`), updating it in place.
      Answers the new header and the row counts after which the pass paused. */
  method ProcessCsv(columns: seq<string>, rows: array<Row>, categoryCol: string, service: string -> Reply)
    returns (header: seq<string>, pauses: seq<nat>)
    modifies rows
    ensures header == WithColumn(columns, FacilityColumn)
    ensures rows[..] == FacilityPass(columns, old(rows[..]), categoryCol, service)
    ensures pauses == PausePoints(rows.Length, rows.Length, BatchSize)
  {
    header := WithColumn(columns, FacilityColumn);
    forall i | 0 <= i < rows.Length {
      rows[i] := rows[i][FacilityColumn := Some("")];
    }
    ghost var cleared := rows[..];
    assert cleared == ClearColumn(old(rows[..]), FacilityColumn);
    var classify := row => WithFacility(header, row, categoryCol, service);
    pauses := FillRows(rows, classify);
    assert rows[..] == FacilityRows(header, cleared, categoryCol, service) by {
      forall i | 0 <= i < rows.Length ensures rows[i] == WithFacility(header, cleared[i], categoryCol, service) {
        assert rows[i] == classify(cleared[i]);
      }
    }
  }

  /** The row loop, for the per-row update `classify` (which reads the row's fields and writes
      its facility type): every row is updated once, in order, and a pause follows row `i`
      when `i + 1` is a multiple of the batch size short of the row count. */
  method FillRows(rows: array<Row>, classify: Row -> Row) returns (pauses: seq<nat>)
    modifies rows
    ensures |rows[..]| == |old(rows[..])|
    ensures forall i :: 0 <= i < rows.Length ==> rows[i] == classify(old(rows[i]))
    ensures pauses == PausePoints(rows.Length, rows.Length, BatchSize)
  {
    pauses := [];
    var i := 0;
    while i < rows.Length
      invariant 0 <= i <= rows.Length
      invariant forall k :: 0 <= k < i ==> rows[k] == classify(old(rows[k]))
      invariant forall k :: i <= k < rows.Length ==> rows[k] == old(rows[k])
      invariant pauses == PausePoints(i, rows.Length, BatchSize)
    {
      rows[i] := classify(rows[i]);
      if (i + 1) % BatchSize == 0 && i + 1 < rows.Length {
        pauses := pauses + [i + 1];
      }
      i := i + 1;
    }
  }

  /** After the pass every row holds one of the four facility types, and every other cell of
      every row is kept. */
  lemma PassLabelsEveryRow(columns: seq<string>, rows: seq<Row>, categoryCol: string, service: string -> Reply)
    ensures |FacilityPass(columns, rows, categoryCol, service)| == |rows|
    ensures forall i :: 0 <= i < |rows| ==>
      var cell := CellOf(FacilityPass(columns, rows, categoryCol, service)[i], FacilityColumn);
      cell.Some? && cell.value in FacilityTypes
    ensures forall i, col :: 0 <= i < |rows| && col != FacilityColumn ==>
      CellOf(FacilityPass(columns, rows, categoryCol, service)[i], col) == CellOf(rows[i], col)
  {
  }

  /** The column is overwritten unconditionally: whatever it held before the pass has no
      influence on the result. */
  lemma PassIgnoresOldColumn(columns: seq<string>, rows: seq<Row>, others: seq<Row>, categoryCol: string, service: string -> Reply)
    requires |rows| == |others|
    requires forall i :: 0 <= i < |rows| ==> rows[i][FacilityColumn := Some("")] == others[i][FacilityColumn := Some("")]
    ensures FacilityPass(columns, rows, categoryCol, service) == FacilityPass(columns, others, categoryCol, service)
  {
  }

  /** A pause follows the `k`-th row exactly when `k` is a multiple of 50 short of the row
      count, so the last row is never followed by one. */
  lemma PausesEveryBatch(n: nat)
    ensures forall k :: k in PausePoints(n, n, BatchSize) <==> 1 <= k < n && k % BatchSize == 0
    ensures n !in PausePoints(n, n, BatchSize)
  {
    PausePointsSpec(n, n, BatchSize);
  }
}
