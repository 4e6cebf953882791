/** The product-category stage: the rule-then-model decision for one item and the in-place
    pass that fills the "Product Category" column of a table of rows. */
module Categorize {
  import opened Frame
  import opened Text
  import opened Keywords
  import opened Completion

  const Equipment: string := "Medical Equipment & Furniture"
  const Supplies: string := "Medical & Surgical Supplies"
  const Protection: string := "PPE & Infection Control"
  const Cleaning: string := "Cleaning & Facility Maintenance"
  const Diagnostics: string := "Diagnostics & Lab Use"

  /** The five categories, in the order the fuzzy match tries them. */
  const Categories: seq<string> := [Equipment, Supplies, Protection, Cleaning, Diagnostics]

  /** The answer for an item without a description. */
  const Uncategorized: string := "Uncategorized"

  /** The keywords of each category, in declaration order. */
  const EquipmentKeywords: seq<string> :=
    ["table", "chair", "bed", "cart", "light", "stool", "cabinet", "monitor", "scale"]
  const SuppliesKeywords: seq<string> :=
    ["syringe", "needle", "bandage", "gauze", "tape", "glove", "tubing", "catheter", "dressing",
     "suture", "scalpel", "blade"]
  const ProtectionKeywords: seq<string> :=
    ["mask", "gown", "shield", "goggle", "sanitizer", "ppe", "protection", "face"]
  const CleaningKeywords: seq<string> :=
    ["disinfectant", "wipe", "cleaner", "detergent", "soap", "sanitizing", "bleach", "mop"]
  const DiagnosticsKeywords: seq<string> :=
    ["test", "lab", "specimen", "culture", "slide", "microscope", "analyzer", "reagent", "diagnostic"]

  /** Entries mapping each keyword to one label. */
  function Entries(keywords: seq<string>, category: string): (table: Table)
    ensures |table| == |keywords|
    ensures forall k :: 0 <= k < |keywords| ==> table[k] == (keywords[k], category)
  {
    seq(|keywords|, k requires 0 <= k < |keywords| => (keywords[k], category))
  }

  /** The keyword table, in declaration order (a dict iterates in insertion order). */
  const CategoryMapping: Table :=
    Entries(EquipmentKeywords, Equipment) + Entries(SuppliesKeywords, Supplies)
    + Entries(ProtectionKeywords, Protection) + Entries(CleaningKeywords, Cleaning)
    + Entries(DiagnosticsKeywords, Diagnostics)

  /** The column the stage fills. */
  const CategoryColumn: string := "Product Category"

  /** Every label of the keyword table is one of the five categories. */
  lemma MappingLabels()
    ensures forall k :: 0 <= k < |CategoryMapping| ==> CategoryMapping[k].1 in Categories
  {
  }

  /** The user message sent to the model: the description, then the vendor and the
      subcategory when they are present. */
  function CategoryContext(description: string, vendor: Cell, subcategory: Cell): (context: string)
    ensures IsPrefix("Description: " + description, context)
  {
    var head := "Description: " + description;
    var withVendor := head + (if Present(vendor) then ", Vendor: " + vendor.value else "");
    var context := withVendor + (if Present(subcategory) then ", Subcategory: " + subcategory.value else "");
    IsPrefixIff(head, context);
    assert context[..|head|] == head;
    context
  }

  /** Vendor and subcategory are appended in that order when both are present. */
  lemma CategoryContextBoth(d: string, v: string, sub: string)
    requires v != "" && sub != ""
    ensures CategoryContext(d, Some(v), Some(sub)) == "Description: " + d + ", Vendor: " + v + ", Subcategory: " + sub
  {
  }

  /** A missing, NaN or empty vendor and subcategory add nothing. */
  lemma CategoryContextBare(d: string, vendor: Cell, subcategory: Cell)
    requires !Present(vendor) && !Present(subcategory)
    ensures CategoryContext(d, vendor, subcategory) == "Description: " + d
  {
  }

  /** A vendor without a subcategory ends the message. */
  lemma CategoryContextVendorOnly(d: string, v: string, subcategory: Cell)
    requires v != "" && !Present(subcategory)
    ensures CategoryContext(d, Some(v), subcategory) == "Description: " + d + ", Vendor: " + v
  {
  }

  /** A subcategory without a vendor is appended directly after the description. */
  lemma CategoryContextSubcategoryOnly(d: string, vendor: Cell, sub: string)
    requires !Present(vendor) && sub != ""
    ensures CategoryContext(d, vendor, Some(sub)) == "Description: " + d + ", Subcategory: " + sub
  {
  }

  /** The keyword rule on one text: the label of the first table entry whose keyword occurs
      in the lower-cased text. */
  function KeywordRule(text: string): (r: Option<string>)
    ensures r.Some? ==> r.value in Categories
  {
    MappingLabels();
    FirstHit(Lower(text), CategoryMapping)
  }

  /** The keyword rule for a hint text that may be absent. */
  function HintRule(subcategory: Cell): (r: Option<string>)
    ensures r.Some? ==> Present(subcategory) && r == KeywordRule(subcategory.value)
  {
    if Present(subcategory) then KeywordRule(subcategory.value) else None
  }

  /** The model is asked exactly when there is a description and no keyword rule fires on it
      or on the subcategory. */
  predicate ConsultsModel(description: Cell, subcategory: Cell) {
    Present(description)
    && KeywordRule(description.value).None?
    && HintRule(subcategory).None?
  }

  /** The category of one item; `service` answers the user message sent to the model. */
  function CategorizeItem(description: Cell, vendor: Cell, subcategory: Cell, service: string -> Reply): (category: string)
    ensures category in Categories || category == Uncategorized || category == NeedsReview
    ensures category == Uncategorized <==> !Present(description)
    ensures category != ""
  {
    assert Uncategorized !in Categories && Uncategorized != NeedsReview;
    assert "" !in Categories && Uncategorized != "" && NeedsReview != "";
    if !Present(description) then Uncategorized
    else match KeywordRule(description.value)
      case Some(c) => c
      case None =>
        match HintRule(subcategory)
        case Some(c) => c
        case None => ClassifyReply(service(CategoryContext(description.value, vendor, subcategory)), Categories)
  }

  /** An empty or missing description is uncategorized whatever the other fields and the
      model would say. */
  lemma BlankDescription(description: Cell, vendor: Cell, subcategory: Cell, service: string -> Reply)
    requires !Present(description)
    ensures !ConsultsModel(description, subcategory)
    ensures CategorizeItem(description, vendor, subcategory, service) == Uncategorized
  {
  }

  /** The description rule: the label of the earliest table entry whose keyword occurs in the
      lower-cased description, whatever the subcategory and the model say. */
  lemma DescriptionRuleWins(description: Cell, vendor: Cell, subcategory: Cell, service: string -> Reply, k: int)
    requires Present(description) && FirstHitAt(Lower(description.value), CategoryMapping, k)
    ensures !ConsultsModel(description, subcategory)
    ensures CategorizeItem(description, vendor, subcategory, service) == CategoryMapping[k].1
  {
    FirstHitIsEarliest(Lower(description.value), CategoryMapping, k);
  }

  /** The subcategory is a hint only: it decides when no keyword occurs in the description,
      and then by the same first-entry rule. */
  lemma SubcategoryHint(description: Cell, vendor: Cell, subcategory: Cell, service: string -> Reply, k: int)
    requires Present(description) && Present(subcategory)
    requires forall j :: 0 <= j < |CategoryMapping| ==> !Contains(Lower(description.value), CategoryMapping[j].0)
    requires FirstHitAt(Lower(subcategory.value), CategoryMapping, k)
    ensures !ConsultsModel(description, subcategory)
    ensures CategorizeItem(description, vendor, subcategory, service) == CategoryMapping[k].1
  {
    FirstHitNone(Lower(description.value), CategoryMapping);
    FirstHitIsEarliest(Lower(subcategory.value), CategoryMapping, k);
  }

  /** With no rule firing, the answer is the model's reply to the context string, validated
      against the five categories; a failed request gives the sentinel. */
  lemma ModelFallback(description: Cell, vendor: Cell, subcategory: Cell, service: string -> Reply)
    requires Present(description)
    requires forall j :: 0 <= j < |CategoryMapping| ==> !Contains(Lower(description.value), CategoryMapping[j].0)
    requires Present(subcategory) ==>
      forall j :: 0 <= j < |CategoryMapping| ==> !Contains(Lower(subcategory.value), CategoryMapping[j].0)
    ensures ConsultsModel(description, subcategory)
    ensures CategorizeItem(description, vendor, subcategory, service)
      == ClassifyReply(service(CategoryContext(description.value, vendor, subcategory)), Categories)
    ensures service(CategoryContext(description.value, vendor, subcategory)).ServiceError? ==>
      CategorizeItem(description, vendor, subcategory, service) == NeedsReview
  {
    FirstHitNone(Lower(description.value), CategoryMapping);
    if Present(subcategory) {
      FirstHitNone(Lower(subcategory.value), CategoryMapping);
    }
  }

  /** When no model call is made, the model cannot influence the answer. */
  lemma RulesIgnoreModel(description: Cell, vendor: Cell, subcategory: Cell, service: string -> Reply, other: string -> Reply)
    requires !ConsultsModel(description, subcategory)
    ensures CategorizeItem(description, vendor, subcategory, service) == CategorizeItem(description, vendor, subcategory, other)
  {
  }

  /** The table's order decides, not the position in the text: "lab cart" names the
      diagnostics keyword first, but the furniture entry "cart" comes earlier in the table. */
  lemma LabCartIsFurniture(vendor: Cell, subcategory: Cell, service: string -> Reply)
    ensures CategorizeItem(Some("lab cart"), vendor, subcategory, service) == Equipment
  {
    LabCartLower();
    LabCartRule();
    DescriptionRuleWins(Some("lab cart"), vendor, subcategory, service, 3);
  }

  lemma LabCartLower()
    ensures Lower("lab cart") == "lab cart"
  {
  }

  lemma LabCartRule()
    ensures FirstHitAt("lab cart", CategoryMapping, 3) && CategoryMapping[3].1 == Equipment
  {
    var text := "lab cart";
    ContainsInfix("lab ", "cart", "");
    assert "lab " + "cart" + "" == text;
    CartRule(text);
  }

  /** The first four entries of the keyword table. */
  lemma MappingFront()
    ensures |CategoryMapping| > 3
    ensures CategoryMapping[0] == ("table", Equipment) && CategoryMapping[1] == ("chair", Equipment)
    ensures CategoryMapping[2] == ("bed", Equipment) && CategoryMapping[3] == ("cart", Equipment)
  {
    var front := Entries(EquipmentKeywords, Equipment);
    assert CategoryMapping[..|front|] == front;
  }

  /** A text naming "cart" and lacking the letters e and h (so none of "table", "chair" and
      "bed") is decided by the "cart" entry. */
  lemma CartRule(text: string)
    requires 'e' !in text && 'h' !in text && Contains(text, "cart")
    ensures FirstHitAt(text, CategoryMapping, 3) && CategoryMapping[3].1 == Equipment
  {
    MappingFront();
    MissingChar(text, "table", 'e');
    MissingChar(text, "chair", 'h');
    MissingChar(text, "bed", 'e');
  }

  /** A reply of the form "Category: <one of the five>" is read as that category. */
  lemma LabelledReplyAccepted(category: string, usage: nat)
    requires category in Categories
    ensures ClassifyReply(Completion(Some("Category: " + category), usage), Categories) == category
  {
    CategoryShape(category);
    var head := "Category";
    assert head + ": " + category == "Category: " + category;
    CleanLabelFieldReply(head, category);
  }

  /** No category holds a colon or starts or ends with white space. */
  lemma CategoryShape(category: string)
    requires category in Categories
    ensures category != [] && ':' !in category && !IsSpace(category[0]) && !IsSpace(category[|category| - 1])
  {
    CategoriesColonFree();
  }

  lemma CategoriesColonFree()
    ensures forall c :: c in Categories ==> ':' !in c
  {
    assert forall k :: 0 <= k < |Equipment| ==> Equipment[k] != ':';
    assert forall k :: 0 <= k < |Supplies| ==> Supplies[k] != ':';
    assert forall k :: 0 <= k < |Protection| ==> Protection[k] != ':';
    assert forall k :: 0 <= k < |Cleaning| ==> Cleaning[k] != ':';
    assert forall k :: 0 <= k < |Diagnostics| ==> Diagnostics[k] != ':';
  }

  // ---------------------------------------------------------------------------------------
  // The column pass

  /** The rows once the column is set up: cleared unless it exists and is to be preserved. */
  function Prepared(columns: seq<string>, rows: seq<Row>, preserveExisting: bool): (prepared: seq<Row>)
    ensures |prepared| == |rows|
  {
    if CategoryColumn in columns && preserveExisting then rows else ClearColumn(rows, CategoryColumn)
  }

  /** A row is skipped when it is to be preserved and already holds a category. */
  predicate Skipped(row: Row, preserveExisting: bool) {
    preserveExisting && Present(CellOf(row, CategoryColumn))
  }

  /** `df.loc[i, "Product Category"] = categorize_item(...)` for one row, where the
      description, vendor and subcategory are read only when the header has those columns. */
  function WithCategory(header: seq<string>, row: Row, service: string -> Reply): (updated: Row)
    ensures CategoryColumn in updated && Present(updated[CategoryColumn])
    ensures var c := updated[CategoryColumn].value; c in Categories || c == Uncategorized || c == NeedsReview
    ensures forall col :: col != CategoryColumn ==> CellOf(updated, col) == CellOf(row, col)
  {
    row[CategoryColumn := Some(CategorizeItem(
      Field(header, row, "DESCRIPTION", Some("")),
      Field(header, row, "VENDOR_NAME", None),
      Field(header, row, "SUBCATEGORY", None),
      service))]
  }

  /** One row after the pass: left alone when skipped, otherwise given its category. */
  function CategorizeRow(header: seq<string>, row: Row, preserveExisting: bool, service: string -> Reply): (updated: Row)
    ensures Present(CellOf(updated, CategoryColumn))
    ensures Present(CellOf(row, CategoryColumn)) && preserveExisting ==> updated == row
  {
    if Skipped(row, preserveExisting) then row else WithCategory(header, row, service)
  }

  /** All rows after the pass, for prepared rows. */
  function CategorizeRows(header: seq<string>, prepared: seq<Row>, preserveExisting: bool, service: string -> Reply): (result: seq<Row>)
    ensures |result| == |prepared|
    ensures forall i :: 0 <= i < |prepared| ==> result[i] == CategorizeRow(header, prepared[i], preserveExisting, service)
  {
    seq(|prepared|, i requires 0 <= i < |prepared| => CategorizeRow(header, prepared[i], preserveExisting, service))
  }

  /** The whole pass on the rows as read: set up the column, then categorize. */
  function CategoryPass(columns: seq<string>, rows: seq<Row>, preserveExisting: bool, service: string -> Reply): (result: seq<Row>)
    ensures |result| == |rows|
  {
    CategorizeRows(WithColumn(columns, CategoryColumn), Prepared(columns, rows, preserveExisting), preserveExisting, service)
  }

  /** `process_csv` on the table held in `rows` (with header `columns`), updating it in place.
      Answers the new header and the counter values at which the pass paused for rate
      limiting. */
  method ProcessCsv(columns: seq<string>, rows: array<Row>, batchSize: int, preserveExisting: bool, service: string -> Reply)
    returns (header: seq<string>, pauses: seq<nat>)
    requires batchSize != 0
    modifies rows
    ensures header == WithColumn(columns, CategoryColumn)
    ensures rows[..] == CategoryPass(columns, old(rows[..]), preserveExisting, service)
    ensures pauses == PausePoints(CountBlank(Prepared(columns, old(rows[..]), preserveExisting), CategoryColumn),
                                  CountBlank(Prepared(columns, old(rows[..]), preserveExisting), CategoryColumn), batchSize)
  {
    header := WithColumn(columns, CategoryColumn);
    if !(CategoryColumn in columns && preserveExisting) {
      forall i | 0 <= i < rows.Length {
        rows[i] := rows[i][CategoryColumn := Some("")];
      }
    }
    assert rows[..] == Prepared(columns, old(rows[..]), preserveExisting);
    var items := CountBlank(rows[..], CategoryColumn);
    pauses := FillCategories(header, rows, batchSize, items, preserveExisting, service);
  }

  /** The row loop: every row that is not skipped gets the category of its fields; the
      counter of classified rows triggers a pause at each multiple of `batchSize` short of
      `items`. Without preservation every cell is blank on entry. */
  method FillCategories(header: seq<string>, rows: array<Row>, batchSize: int, items: nat, preserveExisting: bool, service: string -> Reply)
    returns (pauses: seq<nat>)
    requires batchSize != 0
    requires !preserveExisting ==> forall k :: 0 <= k < rows.Length ==> !Present(CellOf(rows[k], CategoryColumn))
    modifies rows
    ensures rows[..] == CategorizeRows(header, old(rows[..]), preserveExisting, service)
    ensures pauses == PausePoints(CountBlank(old(rows[..]), CategoryColumn), items, batchSize)
  {
    ghost var prepared := rows[..];
    var count := 0;
    pauses := [];
    var i := 0;
    while i < rows.Length
      invariant FilledUpTo(header, prepared, rows[..], i, preserveExisting, service)
      invariant count == CountBlank(prepared[..i], CategoryColumn)
      invariant pauses == PausePoints(count, items, batchSize)
    {
      ghost var before := rows[..];
      FilledUpToNext(header, prepared, before, i, preserveExisting, service);
      CountBlankNext(prepared, CategoryColumn, i);
      var row := rows[i];
      if !Skipped(row, preserveExisting) {
        rows[i] := WithCategory(header, row, service);
        count := count + 1;
        if count % batchSize == 0 && count < items {
          pauses := pauses + [count];
        }
      }
      assert rows[..] == before[i := CategorizeRow(header, before[i], preserveExisting, service)];
      i := i + 1;
    }
    FilledAll(header, prepared, rows[..], preserveExisting, service);
    assert prepared[..rows.Length] == prepared;
  }

  /** The first `i` rows of `current` are the prepared rows after the pass, the rest are the
      prepared rows themselves. */
  predicate FilledUpTo(header: seq<string>, prepared: seq<Row>, current: seq<Row>, i: int, preserveExisting: bool, service: string -> Reply) {
    |current| == |prepared| && 0 <= i <= |prepared|
    && (forall k :: 0 <= k < i ==> current[k] == CategorizeRow(header, prepared[k], preserveExisting, service))
    && (forall k :: i <= k < |prepared| ==> current[k] == prepared[k])
  }

  lemma FilledUpToNext(header: seq<string>, prepared: seq<Row>, current: seq<Row>, i: int, preserveExisting: bool, service: string -> Reply)
    requires FilledUpTo(header, prepared, current, i, preserveExisting, service) && i < |prepared|
    ensures current[i] == prepared[i]
    ensures FilledUpTo(header, prepared, current[i := CategorizeRow(header, current[i], preserveExisting, service)], i + 1, preserveExisting, service)
  {
  }

  lemma FilledAll(header: seq<string>, prepared: seq<Row>, current: seq<Row>, preserveExisting: bool, service: string -> Reply)
    requires FilledUpTo(header, prepared, current, |prepared|, preserveExisting, service)
    ensures current == CategorizeRows(header, prepared, preserveExisting, service)
  {
  }

  /** Every row holds a category after the pass, and without preservation every row holds the
      category its own fields give. */
  lemma PassFillsEveryRow(columns: seq<string>, rows: seq<Row>, preserveExisting: bool, service: string -> Reply)
    ensures forall i :: 0 <= i < |rows| ==> Present(CellOf(CategoryPass(columns, rows, preserveExisting, service)[i], CategoryColumn))
    ensures !preserveExisting ==> forall i :: 0 <= i < |rows| ==>
      CategoryPass(columns, rows, preserveExisting, service)[i]
        == WithCategory(WithColumn(columns, CategoryColumn), rows[i][CategoryColumn := Some("")], service)
    ensures preserveExisting ==> forall i :: 0 <= i < |rows| && !Present(CellOf(rows[i], CategoryColumn)) ==>
      CategoryPass(columns, rows, preserveExisting, service)[i]
        == WithCategory(WithColumn(columns, CategoryColumn), Prepared(columns, rows, true)[i], service)
  {
  }

  /** With preservation, a row whose existing category is filled in comes out unchanged. */
  lemma PassPreservesExisting(columns: seq<string>, rows: seq<Row>, service: string -> Reply, i: int)
    requires 0 <= i < |rows| && CategoryColumn in columns && Present(CellOf(rows[i], CategoryColumn))
    ensures CategoryPass(columns, rows, true, service)[i] == rows[i]
  {
  }

  /** The pass writes the category column only: every other cell of every row is kept. */
  lemma PassTouchesOnlyCategory(columns: seq<string>, rows: seq<Row>, preserveExisting: bool, service: string -> Reply)
    ensures |CategoryPass(columns, rows, preserveExisting, service)| == |rows|
    ensures forall i, col :: 0 <= i < |rows| && col != CategoryColumn ==>
      CellOf(CategoryPass(columns, rows, preserveExisting, service)[i], col) == CellOf(rows[i], col)
  {
  }

  /** A second pass with preservation finds nothing left to do: it classifies no row and
      gives the same rows back. */
  lemma SecondPassChangesNothing(columns: seq<string>, rows: seq<Row>, preserveExisting: bool, service: string -> Reply, other: string -> Reply)
    ensures var once := CategoryPass(columns, rows, preserveExisting, service);
      var header := WithColumn(columns, CategoryColumn);
      CountBlank(Prepared(header, once, true), CategoryColumn) == 0
      && CategoryPass(header, once, true, other) == once
  {
    var once := CategoryPass(columns, rows, preserveExisting, service);
    var header := WithColumn(columns, CategoryColumn);
    PassFillsEveryRow(columns, rows, preserveExisting, service);
    AllPresentNoneBlank(once);
  }

  lemma {:induction false} AllPresentNoneBlank(rows: seq<Row>)
    requires forall i :: 0 <= i < |rows| ==> Present(CellOf(rows[i], CategoryColumn))
    ensures CountBlank(rows, CategoryColumn) == 0
  {
    if rows != [] {
      AllPresentNoneBlank(rows[..|rows| - 1]);
    }
  }
}
