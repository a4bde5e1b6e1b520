/**
 * Saving a product's variants: the list is cleaned (labels and measures
 * trimmed, blank-label rows dropped, `sort_order` taken from the original
 * position), checked for case-insensitive duplicate labels, and then written
 * with replace-all semantics: delete every stored row of the product, then
 * insert the cleaned rows.
 *
 * The database is an abstract table of rows; whether its delete or insert
 * call fails is a parameter.
 */
module VariantServices {
  import opened Wrappers
  import opened Text
  import opened VariantEditor

  // ---------------------------------------------------------------------------
  // Cleaning

  /** `measure_value?.trim() || null`: trimmed, and absent when missing or blank. */
  function TidyMeasure(m: Option<string>): (r: Option<string>)
    ensures r.None? <==> (m.None? || AllWhitespace(m.value))
    ensures r.Some? ==> m.Some? && r.value == Trim(m.value) && r.value != ""
  {
    match m
    case None => None
    case Some(s) => TrimBlank(s); if Trim(s) == "" then None else Some(Trim(s))
  }

  /** One row as the cleaning `map` produces it, `index` being its position in the input list. */
  function Tidy(v: Variant, index: nat): Variant
  {
    v.(labelText := Trim(v.labelText), measureValue := TidyMeasure(v.measureValue), sortOrder := index)
  }

  /** The cleaning `map`: every input row tidied, carrying its input position. */
  function Tidied(variants: seq<Variant>): (r: seq<Variant>)
    ensures |r| == |variants|
    ensures forall i :: 0 <= i < |variants| ==> r[i] == Tidy(variants[i], i)
  {
    seq(|variants|, i requires 0 <= i < |variants| => Tidy(variants[i], i))
  }

  /** The cleaning `filter`: the rows whose label is not empty, in order. */
  function KeepLabelled(rows: seq<Variant>): (r: seq<Variant>)
    ensures |r| <= |rows|
    ensures forall k :: 0 <= k < |r| ==> r[k].labelText != ""
  {
    if rows == [] then []
    else
      var last := rows[|rows| - 1];
      KeepLabelled(rows[..|rows| - 1]) + (if last.labelText != "" then [last] else [])
  }

  /** The cleaned list that is checked and saved. */
  function Clean(variants: seq<Variant>): (r: seq<Variant>)
    ensures |r| <= |variants|
    ensures forall k :: 0 <= k < |r| ==> r[k].labelText != ""
  {
    KeepLabelled(Tidied(variants))
  }

  /** Adding a row and saving without typing its label saves the same rows as before. */
  lemma AddedRowNotSaved(variants: seq<Variant>, now: string)
    ensures Clean(AddVariant(variants, now)) == Clean(variants)
  {
    var r := AddVariant(variants, now);
    var n := |variants|;
    assert Tidied(r)[..n] == Tidied(variants);
    assert Tidied(r)[n].labelText == "";
  }

  /**
   * Cleaning does not keep the default rule: when the default row's label is
   * blank, the only saved row is the other one, and it is not the default.
   */
  lemma SaveCanDropDefault()
    ensures var blankDefault := EmptyVariant("t").(labelText := " ", isDefault := true);
      var named := EmptyVariant("t").(labelText := "C", sortOrder := 1);
      ExactlyOneDefault([blankDefault, named]) &&
      Clean([blankDefault, named]) == [Tidy(named, 1)] && !HasDefault(Clean([blankDefault, named]))
  {
    var blankDefault := EmptyVariant("t").(labelText := " ", isDefault := true);
    var named := EmptyVariant("t").(labelText := "C", sortOrder := 1);
    var vs := [blankDefault, named];
    assert DefaultAt(vs, 0);
    assert Trim(" ") == "" by {
      TrimBlank(" ");
      assert IsWhitespace(" "[0]);
    }
    assert Trim("C") == "C" by {
      assert StartIndex("C", 0) == 0;
      assert EndIndex("C", 1) == 1;
    }
    var rows := Tidied(vs);
    assert rows == [Tidy(blankDefault, 0), Tidy(named, 1)];
    assert rows[..1] == [Tidy(blankDefault, 0)];
    assert rows[..1][..0] == [];
    assert KeepLabelled(rows[..1]) == [];
    assert Clean(vs) == [Tidy(named, 1)];
    assert !Tidy(named, 1).isDefault;
  }

  /** The positions of the rows with a non-empty label, in increasing order. */
  function Kept(rows: seq<Variant>): seq<int>
  {
    if rows == [] then []
    else Kept(rows[..|rows| - 1]) + (if rows[|rows| - 1].labelText != "" then [|rows| - 1] else [])
  }

  /** The filter's `k`-th row is the input row at the `k`-th kept position. */
  lemma {:induction false} KeepLabelledPicks(rows: seq<Variant>)
    ensures |KeepLabelled(rows)| == |Kept(rows)|
    ensures forall k :: 0 <= k < |Kept(rows)| ==>
      0 <= Kept(rows)[k] < |rows| && KeepLabelled(rows)[k] == rows[Kept(rows)[k]]
  {
    if rows != [] {
      var prefix := rows[..|rows| - 1];
      KeepLabelledPicks(prefix);
      forall k | 0 <= k < |Kept(prefix)|
        ensures KeepLabelled(rows)[k] == rows[Kept(rows)[k]]
      {
        assert rows[Kept(prefix)[k]] == prefix[Kept(prefix)[k]];
      }
    }
  }

  /** A position is kept exactly when its row's label is not empty. */
  lemma {:induction false} KeptMembership(rows: seq<Variant>, j: int)
    ensures j in Kept(rows) <==> 0 <= j < |rows| && rows[j].labelText != ""
  {
    if rows != [] {
      var prefix := rows[..|rows| - 1];
      KeptMembership(prefix, j);
      if 0 <= j < |prefix| {
        assert rows[j] == prefix[j];
      }
    }
  }

  /** The kept positions increase strictly and lie within the input. */
  lemma {:induction false} KeptIncreasing(rows: seq<Variant>)
    ensures forall k :: 0 <= k < |Kept(rows)| ==> 0 <= Kept(rows)[k] < |rows|
    ensures forall k1, k2 :: 0 <= k1 < k2 < |Kept(rows)| ==> Kept(rows)[k1] < Kept(rows)[k2]
  {
    if rows != [] {
      KeptIncreasing(rows[..|rows| - 1]);
    }
  }

  /** Row `c` is the tidied input row its `sort_order` names. */
  predicate TidiedRow(variants: seq<Variant>, c: Variant)
  {
    0 <= c.sortOrder < |variants| && c == Tidy(variants[c.sortOrder], c.sortOrder)
  }

  /**
   * The cleaned list: every row is a tidied input row with a non-empty label,
   * carrying its input position as `sort_order`; the positions increase; and
   * position `i` is present exactly when its label is not all whitespace.
   */
  lemma CleanSpec(variants: seq<Variant>, i: int)
    ensures forall k :: 0 <= k < |Clean(variants)| ==>
      TidiedRow(variants, Clean(variants)[k]) && Clean(variants)[k].labelText != ""
    ensures forall k1, k2 :: 0 <= k1 < k2 < |Clean(variants)| ==>
      Clean(variants)[k1].sortOrder < Clean(variants)[k2].sortOrder
    ensures (exists k :: 0 <= k < |Clean(variants)| && Clean(variants)[k].sortOrder == i)
      <==> 0 <= i < |variants| && !AllWhitespace(variants[i].labelText)
  {
    var rows := Tidied(variants);
    var c := Clean(variants);
    KeepLabelledPicks(rows);
    KeptMembership(rows, i);
    KeptIncreasing(rows);
    var kept := Kept(rows);
    forall k | 0 <= k < |c| ensures c[k].sortOrder == kept[k] && c[k].labelText != "" {
      KeptMembership(rows, kept[k]);
    }
    if 0 <= i < |variants| {
      TrimBlank(variants[i].labelText);
    }
    if i in kept {
      var k :| 0 <= k < |kept| && kept[k] == i;
      assert c[k].sortOrder == i;
    }
  }

  // ---------------------------------------------------------------------------
  // Duplicate check

  /** The lower-cased labels of the cleaned rows. */
  function LowerLabels(cleaned: seq<Variant>): (r: seq<string>)
    ensures |r| == |cleaned|
    ensures forall k :: 0 <= k < |r| ==> r[k] == Lower(cleaned[k].labelText)
  {
    seq(|cleaned|, k requires 0 <= k < |cleaned| => Lower(cleaned[k].labelText))
  }

  /** `new Set(labels)`. */
  function ToSet(s: seq<string>): set<string>
  {
    set x | x in s
  }

  /** The first position at or after `i` holding `x`, or -1. */
  function IndexFrom(s: seq<string>, x: string, i: nat): (r: int)
    requires i <= |s|
    ensures r == -1 || i <= r < |s|
    decreases |s| - i
  {
    if i == |s| then -1
    else if s[i] == x then i
    else IndexFrom(s, x, i + 1)
  }

  /** `s.indexOf(x)`: the first position of `x`, or -1. */
  function IndexOf(s: seq<string>, x: string): (r: int)
    ensures r == -1 || 0 <= r < |s|
  {
    IndexFrom(s, x, 0)
  }

  /** `IndexFrom` finds `x` exactly when it occurs at or after `i`, and skips only other labels. */
  lemma {:induction false} IndexFromSpec(s: seq<string>, x: string, i: nat)
    requires i <= |s|
    ensures IndexFrom(s, x, i) == -1 <==> forall k :: i <= k < |s| ==> s[k] != x
    ensures IndexFrom(s, x, i) != -1 ==>
      s[IndexFrom(s, x, i)] == x && forall k :: i <= k < IndexFrom(s, x, i) ==> s[k] != x
    decreases |s| - i
  {
    if i < |s| && s[i] != x {
      IndexFromSpec(s, x, i + 1);
    }
  }

  /** `indexOf` answers -1 exactly for an absent label, and otherwise its first position. */
  lemma IndexOfSpec(s: seq<string>, x: string)
    ensures IndexOf(s, x) == -1 <==> x !in s
    ensures IndexOf(s, x) != -1 ==> s[IndexOf(s, x)] == x && x !in s[..IndexOf(s, x)]
  {
    IndexFromSpec(s, x, 0);
    var r := IndexOf(s, x);
    if r != -1 {
      assert forall k :: 0 <= k < r ==> s[..r][k] == s[k];
    }
  }

  /** The first `n` entries of `labels.filter((item, index) => labels.indexOf(item) !== index)`. */
  function RepeatsUpTo(labels: seq<string>, n: nat): (r: seq<string>)
    requires n <= |labels|
    ensures |r| <= n
    ensures forall k :: 0 <= k < |r| ==> r[k] in labels[..n]
  {
    assert n > 0 ==> labels[..n] == labels[..n - 1] + [labels[n - 1]];
    if n == 0 then []
    else RepeatsUpTo(labels, n - 1) + (if IndexOf(labels, labels[n - 1]) != n - 1 then [labels[n - 1]] else [])
  }

  /** The labels the error message lists: every occurrence but the first. */
  function Repeats(labels: seq<string>): (r: seq<string>)
    ensures |r| <= |labels|
    ensures forall k :: 0 <= k < |r| ==> r[k] in labels
  {
    assert labels[..|labels|] == labels;
    RepeatsUpTo(labels, |labels|)
  }

  /** The rejection raised when two cleaned labels are equal ignoring case. */
  datatype DuplicateLabelError = DuplicateLabelError(duplicates: seq<string>)

  /** The cleaning and duplicate check that precede any database call. */
  function CleanAndValidate(variants: seq<Variant>): (r: Result<seq<Variant>, DuplicateLabelError>)
    ensures r.Failure? <==> !Distinct(LowerLabels(Clean(variants)))
    ensures r.Success? ==> r.value == Clean(variants)
    ensures r.Failure? ==> r.error.duplicates == Repeats(LowerLabels(Clean(variants)))
  {
    var cleaned := Clean(variants);
    var labels := LowerLabels(cleaned);
    SetSizeIffDistinct(labels);
    if |labels| != |ToSet(labels)| then Failure(DuplicateLabelError(Repeats(labels)))
    else Success(cleaned)
  }

  /** `labels.length !== uniqueLabels.size` holds exactly when some label repeats. */
  lemma {:induction false} SetSizeIffDistinct(s: seq<string>)
    ensures |ToSet(s)| <= |s|
    ensures |ToSet(s)| == |s| <==> Distinct(s)
  {
    if s != [] {
      var prefix := s[..|s| - 1];
      var last := s[|s| - 1];
      SetSizeIffDistinct(prefix);
      assert s == prefix + [last];
      assert ToSet(s) == ToSet(prefix) + {last};
      if last in prefix {
        assert ToSet(s) == ToSet(prefix);
        var q :| 0 <= q < |prefix| && prefix[q] == last;
        assert s[q] == s[|s| - 1];
      } else {
        assert last !in ToSet(prefix);
        if !Distinct(prefix) {
          var a, b :| 0 <= a < b < |prefix| && prefix[a] == prefix[b];
          assert s[a] == s[b];
        }
      }
    }
  }

  /** How many of the first `n` labels equal `x`. */
  function Occurrences(labels: seq<string>, n: nat, x: string): nat
    requires n <= |labels|
  {
    if n == 0 then 0 else Occurrences(labels, n - 1, x) + (if labels[n - 1] == x then 1 else 0)
  }

  /** `x` occurs among the first `n` labels exactly when some position below `n` holds it. */
  lemma {:induction false} OccurrencesPositive(labels: seq<string>, n: nat, x: string)
    requires n <= |labels|
    ensures Occurrences(labels, n, x) > 0 <==> exists k :: 0 <= k < n && labels[k] == x
  {
    if n > 0 {
      OccurrencesPositive(labels, n - 1, x);
    }
  }

  /** Counting over a prefix of the labels gives the same count as over the whole list. */
  lemma {:induction false} OccurrencesPrefix(labels: seq<string>, p: seq<string>, n: nat, x: string)
    requires n <= |p| <= |labels| && p == labels[..|p|]
    ensures Occurrences(labels, n, x) == Occurrences(p, n, x)
  {
    if n > 0 {
      OccurrencesPrefix(labels, p, n - 1, x);
    }
  }

  /** Counting over the whole list is the multiset count. */
  lemma {:induction false} OccurrencesMultiset(labels: seq<string>, x: string)
    ensures Occurrences(labels, |labels|, x) == multiset(labels)[x]
  {
    if labels != [] {
      var p := labels[..|labels| - 1];
      OccurrencesMultiset(p, x);
      assert labels == p + [labels[|labels| - 1]];
      OccurrencesPrefix(labels, p, |p|, x);
    }
  }

  /** Position `i` is reported exactly when its label occurred before it. */
  lemma IndexOfEarlier(labels: seq<string>, i: nat)
    requires i < |labels|
    ensures IndexOf(labels, labels[i]) != i <==> Occurrences(labels, i, labels[i]) > 0
  {
    IndexFromSpec(labels, labels[i], 0);
    OccurrencesPositive(labels, i, labels[i]);
  }

  /** Among the first `n` positions, a label occurring `c` times is reported `c - 1` times. */
  predicate ReportedOnceLess(labels: seq<string>, n: nat, x: string)
    requires n <= |labels|
  {
    var c := Occurrences(labels, n, x);
    multiset(RepeatsUpTo(labels, n))[x] == if c == 0 then 0 else c - 1
  }

  /** One more position keeps the count: its label is reported when it occurred before. */
  lemma RepeatsStep(labels: seq<string>, n: nat, x: string)
    requires 0 < n <= |labels|
    requires ReportedOnceLess(labels, n - 1, x)
    ensures ReportedOnceLess(labels, n, x)
  {
    IndexOfEarlier(labels, n - 1);
  }

  lemma {:induction false} RepeatsUpToCount(labels: seq<string>, n: nat, x: string)
    requires n <= |labels|
    ensures ReportedOnceLess(labels, n, x)
  {
    if n > 0 {
      RepeatsUpToCount(labels, n - 1, x);
      RepeatsStep(labels, n, x);
    }
  }

  /** In the error's list a label occurring `c` times appears `c - 1` times. */
  lemma RepeatsCount(labels: seq<string>, x: string)
    ensures multiset(Repeats(labels))[x] == if multiset(labels)[x] == 0 then 0 else multiset(labels)[x] - 1
  {
    RepeatsUpToCount(labels, |labels|, x);
    OccurrencesMultiset(labels, x);
  }

  // ---------------------------------------------------------------------------
  // Agreement with the editor's duplicate detector

  /** Lower-casing and then dropping blanks agrees with filtering the rows and then lower-casing. */
  lemma {:induction false} LowerLabelsKeep(rows: seq<Variant>)
    ensures LowerLabels(KeepLabelled(rows)) == NonBlank(LowerLabels(rows))
  {
    if rows != [] {
      var prefix, last := rows[..|rows| - 1], rows[|rows| - 1];
      LowerLabelsKeep(prefix);
      LowerEmpty(last.labelText);
      assert LowerLabels(rows)[..|rows| - 1] == LowerLabels(prefix);
      var kept := KeepLabelled(prefix);
      if last.labelText != "" {
        assert LowerLabels(kept + [last]) == LowerLabels(kept) + [Lower(last.labelText)];
      }
    }
  }

  /** The service compares the same labels, in the same order, as the editor's detector. */
  lemma CleanedLabelsAreFormLabels(variants: seq<Variant>)
    ensures LowerLabels(Clean(variants)) == FormLabels(variants)
  {
    var rows := Tidied(variants);
    LowerLabelsKeep(rows);
    assert LowerLabels(rows) == NormalizedLabels(variants);
  }

  /** Saving is rejected exactly when the editor shows a non-empty duplicate list. */
  lemma RejectsIffEditorFlags(variants: seq<Variant>)
    ensures CleanAndValidate(variants).Failure? <==> Duplicates(FormLabels(variants)) != []
  {
    CleanedLabelsAreFormLabels(variants);
    DuplicatesEmptyIffDistinct(FormLabels(variants));
  }

  /** The rejection lists the same labels the editor highlights (with repetitions). */
  lemma RejectionListsEditorDuplicates(variants: seq<Variant>, x: string)
    requires CleanAndValidate(variants).Failure?
    ensures x in CleanAndValidate(variants).error.duplicates <==> x in Duplicates(FormLabels(variants))
  {
    var labels := FormLabels(variants);
    CleanedLabelsAreFormLabels(variants);
    RepeatsCount(labels, x);
    DuplicatesMembership(labels, x);
  }

  // ---------------------------------------------------------------------------
  // Replace-all persistence

  /** A stored variant row, as the insert payload carries it. */
  datatype Row = Row(
    productId: string,
    labelText: string,
    measureValue: Option<string>,
    price: real,
    stock: real,
    isDefault: bool,
    sortOrder: int)

  /** The insert payload: one row per cleaned variant, in order, for `productId`. */
  function InsertPayload(productId: string, cleaned: seq<Variant>): (rows: seq<Row>)
    ensures |rows| == |cleaned|
    ensures forall k :: 0 <= k < |rows| ==> rows[k].productId == productId
    ensures forall k :: 0 <= k < |rows| ==>
      var v := cleaned[k];
      rows[k] == Row(productId, v.labelText, v.measureValue, v.price, v.stock, v.isDefault, v.sortOrder)
  {
    seq(|cleaned|, k requires 0 <= k < |cleaned| =>
      var v := cleaned[k];
      Row(productId, v.labelText, v.measureValue, v.price, v.stock, v.isDefault, v.sortOrder))
  }

  /** The stored rows of one product, in table order. */
  function RowsOf(table: seq<Row>, productId: string): (r: seq<Row>)
    ensures forall k :: 0 <= k < |r| ==> r[k].productId == productId
  {
    if table == [] then []
    else
      var last := table[|table| - 1];
      RowsOf(table[..|table| - 1], productId) + (if last.productId == productId then [last] else [])
  }

  /** The table after `delete().eq('product_id', productId)`: every other product's rows, in order. */
  function DeleteProduct(table: seq<Row>, productId: string): (r: seq<Row>)
    ensures forall k :: 0 <= k < |r| ==> r[k].productId != productId
  {
    if table == [] then []
    else
      var last := table[|table| - 1];
      DeleteProduct(table[..|table| - 1], productId) + (if last.productId != productId then [last] else [])
  }

  lemma {:induction false} RowsOfAppend(a: seq<Row>, b: seq<Row>, productId: string)
    ensures RowsOf(a + b, productId) == RowsOf(a, productId) + RowsOf(b, productId)
    ensures DeleteProduct(a + b, productId) == DeleteProduct(a, productId) + DeleteProduct(b, productId)
    decreases |b|
  {
    if b == [] {
      assert a + b == a;
    } else {
      var c := b[..|b| - 1];
      assert (a + b)[..|a + b| - 1] == a + c;
      RowsOfAppend(a, c, productId);
    }
  }

  /** A table holding only rows of `productId` is all of that product's rows, and none of the others'. */
  lemma {:induction false} RowsOfUniform(rows: seq<Row>, productId: string)
    requires forall k :: 0 <= k < |rows| ==> rows[k].productId == productId
    ensures RowsOf(rows, productId) == rows
    ensures DeleteProduct(rows, productId) == []
  {
    if rows != [] {
      RowsOfUniform(rows[..|rows| - 1], productId);
    }
  }

  /** A table holding no row of `productId` is kept whole by the delete. */
  lemma {:induction false} RowsOfNone(rows: seq<Row>, productId: string)
    requires forall k :: 0 <= k < |rows| ==> rows[k].productId != productId
    ensures RowsOf(rows, productId) == []
    ensures DeleteProduct(rows, productId) == rows
  {
    if rows != [] {
      RowsOfNone(rows[..|rows| - 1], productId);
    }
  }

  /**
   * Deleting the product's rows and then appending `rows` of that product
   * leaves exactly `rows` as the product's rows and every other row as it was.
   */
  lemma ReplaceAll(table: seq<Row>, productId: string, rows: seq<Row>)
    requires forall k :: 0 <= k < |rows| ==> rows[k].productId == productId
    ensures var cleared := DeleteProduct(table, productId);
      RowsOf(cleared, productId) == [] && DeleteProduct(cleared, productId) == cleared &&
      RowsOf(cleared + rows, productId) == rows && DeleteProduct(cleared + rows, productId) == cleared
  {
    var cleared := DeleteProduct(table, productId);
    RowsOfNone(cleared, productId);
    RowsOfUniform(rows, productId);
    RowsOfAppend(cleared, rows, productId);
  }

  /** The database calls the save makes, in order. */
  datatype DbCall = DeleteAll(productId: string) | InsertRows(rows: seq<Row>)

  /** Why a save failed. */
  datatype SaveError = Rejected(duplicates: seq<string>) | DeleteFailed | InsertFailed

  /**
   * `useUpdateProductVariants`'s mutation: validate, then delete the product's
   * rows, then insert the cleaned rows when there are any. `deleteFails` and
   * `insertFails` say how the database answers each call.
   */
  method UpdateProductVariants(table: seq<Row>, productId: string, variants: seq<Variant>,
                               deleteFails: bool, insertFails: bool)
    returns (after: seq<Row>, calls: seq<DbCall>, error: Option<SaveError>)
    ensures (error.Some? && error.value.Rejected?) <==> Duplicates(FormLabels(variants)) != []
    ensures error.Some? && error.value.Rejected? ==>
      calls == [] && after == table && error.value.duplicates == Repeats(FormLabels(variants))
    ensures error == Some(DeleteFailed) <==> Duplicates(FormLabels(variants)) == [] && deleteFails
    ensures error == Some(InsertFailed) <==>
      Duplicates(FormLabels(variants)) == [] && !deleteFails && Clean(variants) != [] && insertFails
    ensures !(error.Some? && error.value.Rejected?) ==> |calls| >= 1 && calls[0] == DeleteAll(productId)
    ensures |calls| <= 2
    ensures |calls| == 2 <==> Duplicates(FormLabels(variants)) == [] && !deleteFails && Clean(variants) != []
    ensures |calls| == 2 ==> calls[1] == InsertRows(InsertPayload(productId, Clean(variants)))
    ensures error == Some(DeleteFailed) ==> after == table
    ensures error == None ==>
      RowsOf(after, productId) == InsertPayload(productId, Clean(variants)) &&
      DeleteProduct(after, productId) == DeleteProduct(table, productId)
    ensures error == Some(InsertFailed) ==>
      RowsOf(after, productId) == [] && DeleteProduct(after, productId) == DeleteProduct(table, productId)
  {
    RejectsIffEditorFlags(variants);
    CleanedLabelsAreFormLabels(variants);
    after, calls := table, [];
    var checked := CleanAndValidate(variants);
    if checked.Failure? {
      error := Some(Rejected(checked.error.duplicates));
      return;
    }
    var cleaned := checked.value;
    calls := calls + [DeleteAll(productId)];
    if deleteFails {
      error := Some(DeleteFailed);
      return;
    }
    after := DeleteProduct(table, productId);
    var rows := InsertPayload(productId, cleaned);
    ReplaceAll(table, productId, rows);
    if |cleaned| > 0 {
      calls := calls + [InsertRows(rows)];
      if insertFails {
        error := Some(InsertFailed);
        return;
      }
      after := after + rows;
    }
    error := None;
  }
}
