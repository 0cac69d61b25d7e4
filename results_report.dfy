/** What `print_results` makes of the results list: the status labels, the
    details suffix, the grouping of records by category in order of first
    appearance, and the summary tallies. The printed text is represented by
    a `Report` value; colour escape codes, emoji and column padding are not
    part of it. */
module ResultsReport {
  import opened CheckResults

  // ---------------------------------------------------------------------
  // print_status

  /** The colours of `Colors` that a status label is drawn in. */
  datatype Colour = Green | Red | Yellow | Blue

  /** A status indicator: its colour and the status word it shows. */
  datatype Label = Label(colour: Colour, text: string)

  /** The four statuses `print_status` has a dedicated label for. */
  predicate IsKnownStatus(status: string) {
    status == OK || status == MISSING || status == ERROR || status == WARNING
  }

  /** `print_status`: every status string has a label; the four known ones
      get their fixed colour, anything else the blue information label that
      shows the status itself. */
  function StatusLabel(status: string): (indicator: Label)
    ensures indicator.text == status
    ensures indicator.colour == Green <==> status == OK
    ensures indicator.colour == Red <==> status == MISSING || status == ERROR
    ensures indicator.colour == Yellow <==> status == WARNING
    ensures indicator.colour == Blue <==> !IsKnownStatus(status)
  {
    if status == OK then Label(Green, OK)
    else if status == MISSING then Label(Red, MISSING)
    else if status == ERROR then Label(Red, ERROR)
    else if status == WARNING then Label(Yellow, WARNING)
    else Label(Blue, status)
  }

  /** The text printed after a row's label: nothing for empty details,
      otherwise the details in parentheses. */
  function DetailsSuffix(details: string): (suffix: string)
    ensures suffix == [] <==> details == []
    ensures suffix != [] ==>
      |suffix| == |details| + 3 && suffix[..2] == " (" && suffix[|suffix| - 1] == ')'
      && suffix[2..|suffix| - 1] == details
  {
    if details == [] then [] else " (" + details + ")"
  }

  /** One printed line of a category: item, status label, details suffix. */
  datatype Row = Row(item: string, indicator: Label, suffix: string)

  /** The line printed for one record: its item, a label showing its
      status, and its details in parentheses unless they are empty. */
  function RowOf(r: Record): (row: Row)
    ensures row.item == r.item
    ensures row.indicator == StatusLabel(r.status) && row.indicator.text == r.status
    ensures row.suffix == [] <==> r.details == []
    ensures r.details != [] ==> row.suffix == " (" + r.details + ")"
  {
    Row(r.item, StatusLabel(r.status), DetailsSuffix(r.details))
  }

  function Rows(rs: seq<Record>): seq<Row> {
    seq(|rs|, k requires 0 <= k < |rs| => RowOf(rs[k]))
  }

  lemma RowsStep(rs: seq<Record>, j: nat)
    requires j < |rs|
    ensures Rows(rs[..j + 1]) == Rows(rs[..j]) + [RowOf(rs[j])]
  {
    assert rs[..j + 1][..j] == rs[..j];
  }

  /** A category heading with its rows. */
  datatype Section = Section(category: string, rows: seq<Row>)

  /** Total checks, passed, failed, warnings. */
  datatype Summary = Summary(total: nat, passed: nat, failed: nat, warnings: nat)

  datatype Report = Report(sections: seq<Section>, summary: Summary)

  // ---------------------------------------------------------------------
  // Grouping by category

  /** The keys of the `categories` dict, in insertion order: each category
      once, in the order it first occurs among the records. */
  function Categories(rs: seq<Record>): (cats: seq<string>)
    ensures forall i, j :: 0 <= i < j < |cats| ==> cats[i] != cats[j]
    ensures forall k :: 0 <= k < |rs| ==> rs[k].category in cats
  {
    if rs == [] then []
    else
      var earlier := Categories(rs[..|rs| - 1]);
      var c := rs[|rs| - 1].category;
      if c in earlier then earlier else earlier + [c]
  }

  /** `categories[c]`: the records of category `c`, in the order they were
      added. */
  function InCategory(rs: seq<Record>, c: string): (group: seq<Record>)
    ensures |group| <= |rs|
    ensures forall k :: 0 <= k < |group| ==> group[k].category == c
  {
    if rs == [] then []
    else
      var last := rs[|rs| - 1];
      InCategory(rs[..|rs| - 1], c) + (if last.category == c then [last] else [])
  }

  /** Grouping keeps insertion order: the group of a concatenation is the
      group of the first part followed by the group of the second. */
  lemma {:induction false} InCategoryAppend(a: seq<Record>, b: seq<Record>, c: string)
    ensures InCategory(a + b, c) == InCategory(a, c) + InCategory(b, c)
  {
    if b == [] {
      assert a + b == a;
    } else {
      var front := b[..|b| - 1];
      InCategoryAppend(a, front, c);
      assert (a + b)[..|a + b| - 1] == a + front;
    }
  }

  /** Only categories that some record has are listed. */
  lemma {:induction false} CategoriesOccur(rs: seq<Record>)
    ensures forall c :: c in Categories(rs) ==> exists k :: 0 <= k < |rs| && rs[k].category == c
  {
    if rs != [] {
      var front := rs[..|rs| - 1];
      CategoriesOccur(front);
      forall c | c in Categories(front) ensures exists k :: 0 <= k < |rs| && rs[k].category == c {
        var k :| 0 <= k < |front| && front[k].category == c;
        assert rs[k] == front[k];
      }
    }
  }

  /** A category's group holds every record of that category, and nothing
      that is not among the records. */
  lemma {:induction false} InCategoryComplete(rs: seq<Record>, c: string)
    ensures forall k :: 0 <= k < |rs| && rs[k].category == c ==> rs[k] in InCategory(rs, c)
    ensures forall r :: r in InCategory(rs, c) ==> r in rs
  {
    if rs != [] {
      var front := rs[..|rs| - 1];
      InCategoryComplete(front, c);
      forall k | 0 <= k < |front| ensures rs[k] == front[k] {
      }
    }
  }

  /** A category that no record has has an empty group. */
  lemma {:induction false} AbsentCategoryHasNoGroup(rs: seq<Record>, c: string)
    ensures c !in Categories(rs) ==> InCategory(rs, c) == []
  {
    if rs != [] {
      AbsentCategoryHasNoGroup(rs[..|rs| - 1], c);
    }
  }

  /** Adding a record lists its category last if it is new, and changes
      nothing otherwise. */
  lemma CategoriesExtend(front: seq<Record>, r: Record)
    ensures Categories(front + [r]) ==
      if r.category in Categories(front) then Categories(front) else Categories(front) + [r.category]
  {
    assert (front + [r])[..|front|] == front;
  }

  /** Position of the first record of category `c`, or `|rs|` if none. */
  function FirstIndex(rs: seq<Record>, c: string): (k: nat)
    ensures k <= |rs|
    ensures k < |rs| ==> rs[k].category == c
    ensures forall p :: 0 <= p < k ==> rs[p].category != c
  {
    if rs == [] then 0
    else if rs[0].category == c then 0
    else 1 + FirstIndex(rs[1..], c)
  }

  /** Adding a record does not move the first occurrence of a category that
      was already there. */
  lemma FirstIndexAppend(rs: seq<Record>, r: Record, c: string)
    requires FirstIndex(rs, c) < |rs|
    ensures FirstIndex(rs + [r], c) == FirstIndex(rs, c)
  {
    var k0, k1 := FirstIndex(rs, c), FirstIndex(rs + [r], c);
    assert (rs + [r])[k0] == rs[k0];
  }

  /** A category that first occurs in the last record is first found there. */
  lemma FirstIndexOfNewCategory(front: seq<Record>, r: Record)
    requires r.category !in Categories(front)
    ensures FirstIndex(front + [r], r.category) == |front|
  {
    var rs := front + [r];
    forall p | 0 <= p < |front| ensures rs[p].category != r.category {
      assert rs[p] == front[p];
    }
  }

  /** Every listed category occurs among the records. */
  lemma {:induction false} ListedCategoriesOccur(rs: seq<Record>)
    ensures forall c :: c in Categories(rs) ==> FirstIndex(rs, c) < |rs|
  {
    CategoriesOccur(rs);
    forall c | c in Categories(rs) ensures FirstIndex(rs, c) < |rs| {
      var k :| 0 <= k < |rs| && rs[k].category == c;
    }
  }

  ghost predicate InFirstAppearanceOrder(rs: seq<Record>, cats: seq<string>) {
    forall i, j :: 0 <= i < j < |cats| ==> FirstIndex(rs, cats[i]) < FirstIndex(rs, cats[j])
  }

  /** Adding a record keeps the categories in first-appearance order. */
  lemma FirstAppearanceOrderStep(front: seq<Record>, r: Record)
    requires InFirstAppearanceOrder(front, Categories(front))
    ensures InFirstAppearanceOrder(front + [r], Categories(front + [r]))
  {
    var rs := front + [r];
    var earlier := Categories(front);
    CategoriesExtend(front, r);
    ListedCategoriesOccur(front);
    forall k | 0 <= k < |earlier| ensures FirstIndex(rs, earlier[k]) == FirstIndex(front, earlier[k]) {
      assert earlier[k] in earlier;
      FirstIndexAppend(front, r, earlier[k]);
    }
    if r.category !in earlier {
      FirstIndexOfNewCategory(front, r);
      var cats := earlier + [r.category];
      forall i, j | 0 <= i < j < |cats| ensures FirstIndex(rs, cats[i]) < FirstIndex(rs, cats[j]) {
        assert cats[i] == earlier[i];
      }
    }
  }

  /** Categories are listed in order of first appearance. */
  lemma {:induction false} CategoriesInFirstAppearanceOrder(rs: seq<Record>)
    ensures forall i, j :: 0 <= i < j < |Categories(rs)| ==>
              FirstIndex(rs, Categories(rs)[i]) < FirstIndex(rs, Categories(rs)[j])
  {
    if rs != [] {
      var front := rs[..|rs| - 1];
      assert rs == front + [rs[|rs| - 1]];
      CategoriesInFirstAppearanceOrder(front);
      FirstAppearanceOrderStep(front, rs[|rs| - 1]);
    }
  }

  /** The sizes of the groups of `cats`, added up. */
  function GroupSizes(rs: seq<Record>, cats: seq<string>): nat {
    if cats == [] then 0
    else GroupSizes(rs, cats[..|cats| - 1]) + |InCategory(rs, cats[|cats| - 1])|
  }

  /** Adding a record grows exactly one of distinct groups by one, if its
      category is among them. */
  lemma {:induction false} GroupSizesStep(rs: seq<Record>, r: Record, cats: seq<string>)
    requires forall i, j :: 0 <= i < j < |cats| ==> cats[i] != cats[j]
    ensures GroupSizes(rs + [r], cats) == GroupSizes(rs, cats) + (if r.category in cats then 1 else 0)
  {
    if cats != [] {
      var front := cats[..|cats| - 1];
      GroupSizesStep(rs, r, front);
      assert (rs + [r])[..|rs + [r]| - 1] == rs;
      assert r.category in cats <==> r.category in front || r.category == cats[|cats| - 1];
    }
  }

  /** Every record lands in exactly one group: the group sizes add up to
      the number of records. */
  lemma {:induction false} GroupSizesSumToTotal(rs: seq<Record>)
    ensures GroupSizes(rs, Categories(rs)) == |rs|
  {
    if rs != [] {
      var front, r := rs[..|rs| - 1], rs[|rs| - 1];
      assert rs == front + [r];
      GroupSizesSumToTotal(front);
      var earlier := Categories(front);
      GroupSizesStep(front, r, earlier);
      if r.category !in earlier {
        var cats := earlier + [r.category];
        assert cats[..|cats| - 1] == earlier;
        AbsentCategoryHasNoGroup(front, r.category);
      }
    }
  }

  /** After the first `i` records, `order` and `groups` are the keys and
      the values of the `categories` dict. */
  ghost predicate GroupedUpTo(results: seq<Record>, i: nat, order: seq<string>, groups: map<string, seq<Record>>)
    requires i <= |results|
  {
    && order == Categories(results[..i])
    && (forall c :: c in groups <==> c in order)
    && (forall c :: c in groups ==> groups[c] == InCategory(results[..i], c))
  }

  /** The dict after one turn of the grouping loop: record `i`'s category,
      opened with an empty group if new, has the record appended. */
  function AfterOneMore(results: seq<Record>, i: nat, groups: map<string, seq<Record>>): map<string, seq<Record>>
    requires i < |results|
  {
    var cat := results[i].category;
    var withCat := if cat in groups then groups else groups[cat := []];
    withCat[cat := withCat[cat] + [results[i]]]
  }

  /** One turn of the grouping loop lists the record's category last iff it
      is new, which keeps the key list that of the records processed. */
  lemma GroupOrderStep(results: seq<Record>, i: nat, order: seq<string>, groups: map<string, seq<Record>>)
    requires i < |results|
    requires order == Categories(results[..i])
    requires forall c :: c in groups <==> c in order
    ensures (if results[i].category in groups then order else order + [results[i].category])
            == Categories(results[..i + 1])
  {
    assert results[..i + 1] == results[..i] + [results[i]];
    CategoriesExtend(results[..i], results[i]);
  }

  /** One turn of the grouping loop adds the record's category to the keys
      iff it is new. */
  lemma GroupKeysStep(results: seq<Record>, i: nat, order: seq<string>, groups: map<string, seq<Record>>)
    requires i < |results|
    requires forall c :: c in groups <==> c in order
    ensures forall c :: c in AfterOneMore(results, i, groups) <==>
      c in (if results[i].category in groups then order else order + [results[i].category])
  {
  }

  /** Taking one more record extends its category's group by it and leaves
      every other group as it was. */
  lemma InCategoryStep(rs: seq<Record>, i: nat, c: string)
    requires i < |rs|
    ensures InCategory(rs[..i + 1], c) == InCategory(rs[..i], c) + (if rs[i].category == c then [rs[i]] else [])
  {
    assert rs[..i + 1][..i] == rs[..i];
  }

  /** One turn of the grouping loop leaves the groups of the first `i + 1`
      records. */
  lemma GroupValuesStep(results: seq<Record>, i: nat, order: seq<string>, groups: map<string, seq<Record>>)
    requires i < |results|
    requires order == Categories(results[..i])
    requires forall c :: c in groups <==> c in order
    requires forall c :: c in groups ==> groups[c] == InCategory(results[..i], c)
    ensures forall c :: c in AfterOneMore(results, i, groups) ==>
      AfterOneMore(results, i, groups)[c] == InCategory(results[..i + 1], c)
  {
    var cat := results[i].category;
    var after := AfterOneMore(results, i, groups);
    AbsentCategoryHasNoGroup(results[..i], cat);
    forall c | c in after ensures after[c] == InCategory(results[..i + 1], c) {
      InCategoryStep(results, i, c);
    }
  }

  /** One turn of the grouping loop keeps keys and groups equal to those of
      the records processed so far. */
  lemma GroupedAfterOneMore(results: seq<Record>, i: nat, order: seq<string>, groups: map<string, seq<Record>>)
    requires i < |results| && GroupedUpTo(results, i, order, groups)
    ensures GroupedUpTo(results, i + 1, if results[i].category in groups then order else order + [results[i].category],
                        AfterOneMore(results, i, groups))
  {
    GroupOrderStep(results, i, order, groups);
    GroupKeysStep(results, i, order, groups);
    GroupValuesStep(results, i, order, groups);
  }

  /** The grouping loop of `print_results`: builds the `categories` dict,
      its keys in insertion order in `order`. */
  method GroupByCategory(results: seq<Record>) returns (order: seq<string>, groups: map<string, seq<Record>>)
    ensures order == Categories(results)
    ensures forall c :: c in groups <==> c in order
    ensures forall c :: c in groups ==> groups[c] == InCategory(results, c)
  {
    order, groups := [], map[];
    var i := 0;
    while i < |results|
      invariant 0 <= i <= |results|
      invariant GroupedUpTo(results, i, order, groups)
    {
      var result := results[i];
      var cat := result.category;
      GroupedAfterOneMore(results, i, order, groups);
      if cat !in groups {
        order := order + [cat];
        groups := groups[cat := []];
      }
      groups := groups[cat := groups[cat] + [result]];
      i := i + 1;
    }
    assert results[..i] == results;
  }

  /** The sections printed for the categories `cats`, in that order: the
      k-th is headed by the k-th category and lists the rows of that
      category's records. */
  function SectionsFor(rs: seq<Record>, cats: seq<string>): (sections: seq<Section>)
    ensures |sections| == |cats|
    ensures forall k :: 0 <= k < |cats| ==>
      sections[k].category == cats[k] && sections[k].rows == Rows(InCategory(rs, cats[k]))
  {
    if cats == [] then []
    else
      var c := cats[|cats| - 1];
      SectionsFor(rs, cats[..|cats| - 1]) + [Section(c, Rows(InCategory(rs, c)))]
  }

  lemma SectionsForStep(rs: seq<Record>, cats: seq<string>, i: nat)
    requires i < |cats|
    ensures SectionsFor(rs, cats[..i + 1]) ==
            SectionsFor(rs, cats[..i]) + [Section(cats[i], Rows(InCategory(rs, cats[i])))]
  {
    assert cats[..i + 1][..i] == cats[..i];
  }

  function TotalRows(sections: seq<Section>): nat {
    if sections == [] then 0
    else TotalRows(sections[..|sections| - 1]) + |sections[|sections| - 1].rows|
  }

  /** The sections printed for a list of categories have as many rows as the
      groups of those categories have records. */
  lemma {:induction false} TotalRowsOfSections(rs: seq<Record>, cats: seq<string>)
    ensures TotalRows(SectionsFor(rs, cats)) == GroupSizes(rs, cats)
  {
    if cats != [] {
      var front := cats[..|cats| - 1];
      TotalRowsOfSections(rs, front);
      var s := SectionsFor(rs, cats);
      assert s[..|s| - 1] == SectionsFor(rs, front);
    }
  }

  /** The printed sections, one per category in first-appearance order,
      each with the rows of that category's records, one per record. */
  function Sections(rs: seq<Record>): (sections: seq<Section>)
    ensures |sections| == |Categories(rs)|
    ensures forall k :: 0 <= k < |sections| ==>
      sections[k].category == Categories(rs)[k]
      && sections[k].rows == Rows(InCategory(rs, Categories(rs)[k]))
      && |sections[k].rows| == |InCategory(rs, Categories(rs)[k])|
  {
    SectionsFor(rs, Categories(rs))
  }

  /** Every record is printed exactly once: the sections hold as many rows
      as there are records. */
  lemma EveryRecordPrintedOnce(rs: seq<Record>)
    ensures TotalRows(Sections(rs)) == |rs|
  {
    TotalRowsOfSections(rs, Categories(rs));
    GroupSizesSumToTotal(rs);
  }

  // ---------------------------------------------------------------------
  // Summary tallies

  /** `sum(1 for r in rs if r['status'] in statuses)` */
  function CountStatus(rs: seq<Record>, statuses: set<string>): (n: nat)
    ensures n <= |rs|
    ensures n == |rs| <==> forall k :: 0 <= k < |rs| ==> rs[k].status in statuses
  {
    if rs == [] then 0
    else (if rs[0].status in statuses then 1 else 0) + CountStatus(rs[1..], statuses)
  }

  /** Counting over disjoint sets of statuses adds up. */
  lemma {:induction false} CountDisjointUnion(rs: seq<Record>, a: set<string>, b: set<string>)
    requires a !! b
    ensures CountStatus(rs, a + b) == CountStatus(rs, a) + CountStatus(rs, b)
  {
    if rs != [] {
      CountDisjointUnion(rs[1..], a, b);
    }
  }

  /** The summary `print_results` prints: the total is the number of
      records, and the three tallies together never exceed it. */
  function SummaryOf(rs: seq<Record>): (summary: Summary)
    ensures summary.total == |rs|
    ensures summary.passed + summary.failed + summary.warnings <= summary.total
  {
    CountDisjointUnion(rs, {OK}, {ERROR, MISSING});
    CountDisjointUnion(rs, {OK} + {ERROR, MISSING}, {WARNING});
    Summary(|rs|, CountStatus(rs, {OK}), CountStatus(rs, {ERROR, MISSING}), CountStatus(rs, {WARNING}))
  }

  /** The three tallies count disjoint sets of records, so together they
      are at most the total, and equal to it exactly when every record has
      one of the four known statuses. */
  lemma SummaryCountsDisjoint(rs: seq<Record>)
    ensures SummaryOf(rs).passed + SummaryOf(rs).failed + SummaryOf(rs).warnings <= SummaryOf(rs).total
    ensures SummaryOf(rs).passed + SummaryOf(rs).failed + SummaryOf(rs).warnings == SummaryOf(rs).total
            <==> forall k :: 0 <= k < |rs| ==> IsKnownStatus(rs[k].status)
  {
    CountDisjointUnion(rs, {OK}, {ERROR, MISSING});
    CountDisjointUnion(rs, {OK} + {ERROR, MISSING}, {WARNING});
    var known := {OK} + {ERROR, MISSING} + {WARNING};
    assert forall s :: s in known <==> IsKnownStatus(s);
  }

  /** Number of records whose label is drawn in `colour`. */
  function CountColour(rs: seq<Record>, colour: Colour): nat {
    if rs == [] then 0
    else (if StatusLabel(rs[0].status).colour == colour then 1 else 0) + CountColour(rs[1..], colour)
  }

  lemma {:induction false} CountColourIsCountStatus(rs: seq<Record>, colour: Colour, statuses: set<string>)
    requires forall s :: StatusLabel(s).colour == colour <==> s in statuses
    ensures CountColour(rs, colour) == CountStatus(rs, statuses)
  {
    if rs != [] {
      CountColourIsCountStatus(rs[1..], colour, statuses);
    }
  }

  /** The tallies agree with the labels: passed counts the green rows,
      failed the red ones, warnings the yellow ones. */
  lemma {:induction false} SummaryMatchesLabels(rs: seq<Record>)
    ensures SummaryOf(rs).passed == CountColour(rs, Green)
    ensures SummaryOf(rs).failed == CountColour(rs, Red)
    ensures SummaryOf(rs).warnings == CountColour(rs, Yellow)
  {
    CountColourIsCountStatus(rs, Green, {OK});
    CountColourIsCountStatus(rs, Red, {ERROR, MISSING});
    CountColourIsCountStatus(rs, Yellow, {WARNING});
  }
}
