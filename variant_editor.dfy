/**
 * The product-variant editor of the admin panel: the list of a product's
 * variants (presentations / measures) as the admin edits it, and the
 * transitions the editor's handlers apply to it before anything is saved.
 *
 * The handlers that build a new list from the old one (toggle, add, remove,
 * set default) are functions on values. The field-edit handler writes into the
 * element objects it shares with the caller's list, so elements that it
 * touches are modelled as objects of class VariantRecord.
 */
module VariantEditor {
  import opened Wrappers
  import opened Text

  /** One variant row as the editor holds it; `price` and `stock` are numbers. */
  datatype Variant = Variant(
    id: string,
    productId: string,
    labelText: string,
    measureValue: Option<string>,
    price: real,
    stock: real,
    isDefault: bool,
    sortOrder: int,
    createdAt: string)

  /** The row `createEmptyVariant` builds; `now` is the creation timestamp the clock supplies. */
  function EmptyVariant(now: string): Variant
  {
    Variant("", "", "", Some(""), 0.0, 0.0, false, 0, now)
  }

  // ---------------------------------------------------------------------------
  // Invariants of a variant list

  /** The `sort_order` of every row is its position. */
  predicate Contiguous(vs: seq<Variant>)
  {
    forall i :: 0 <= i < |vs| ==> vs[i].sortOrder == i
  }

  /** Row `d` is the default and no other row is. */
  predicate DefaultAt(vs: seq<Variant>, d: int)
  {
    0 <= d < |vs| && vs[d].isDefault && forall j :: 0 <= j < |vs| && j != d ==> !vs[j].isDefault
  }

  predicate ExactlyOneDefault(vs: seq<Variant>)
  {
    exists d :: 0 <= d < |vs| && DefaultAt(vs, d)
  }

  predicate AtMostOneDefault(vs: seq<Variant>)
  {
    forall i, j :: 0 <= i < |vs| && 0 <= j < |vs| && vs[i].isDefault && vs[j].isDefault ==> i == j
  }

  predicate HasDefault(vs: seq<Variant>)
  {
    exists i :: 0 <= i < |vs| && vs[i].isDefault
  }

  /** What the editor keeps true of a list: positions numbered, and one default when non-empty. */
  predicate Consistent(vs: seq<Variant>)
  {
    Contiguous(vs) && (vs == [] || ExactlyOneDefault(vs))
  }

  /** A row with its default flag and position erased: what "nothing else changed" compares. */
  function Unranked(v: Variant): Variant
  {
    v.(isDefault := false, sortOrder := 0)
  }

  // ---------------------------------------------------------------------------
  // Duplicate labels

  /** A label as the duplicate check compares it: trimmed, then lower-cased. */
  function Normalize(name: string): string
  {
    Lower(Trim(name))
  }

  /** Every row's label, normalized, in list order. */
  function NormalizedLabels(vs: seq<Variant>): (r: seq<string>)
    ensures |r| == |vs|
    ensures forall i :: 0 <= i < |vs| ==> r[i] == Normalize(vs[i].labelText)
  {
    seq(|vs|, i requires 0 <= i < |vs| => Normalize(vs[i].labelText))
  }

  /** `labels.filter(l => l !== '')`: the non-empty labels, in order. */
  function NonBlank(labels: seq<string>): (r: seq<string>)
    ensures |r| <= |labels|
    ensures forall k :: 0 <= k < |r| ==> r[k] != ""
    ensures forall x :: x != "" ==> multiset(r)[x] == multiset(labels)[x]
  {
    if labels == [] then []
    else
      var last := labels[|labels| - 1];
      assert labels == labels[..|labels| - 1] + [last];
      NonBlank(labels[..|labels| - 1]) + (if last != "" then [last] else [])
  }

  /** The labels the duplicate check compares: normalized, blanks dropped. */
  function FormLabels(vs: seq<Variant>): (r: seq<string>)
    ensures |r| <= |vs|
    ensures forall k :: 0 <= k < |r| ==> r[k] != ""
    ensures forall x :: x != "" ==> multiset(r)[x] == multiset(NormalizedLabels(vs))[x]
  {
    NonBlank(NormalizedLabels(vs))
  }

  predicate Distinct(s: seq<string>)
  {
    forall i, j :: 0 <= i < j < |s| ==> s[i] != s[j]
  }

  /**
   * The duplicate list for a label list, label by label: a label is appended
   * when it was seen before and is not in the list yet.
   */
  function Duplicates(labels: seq<string>): seq<string>
  {
    if labels == [] then []
    else
      var prefix := labels[..|labels| - 1];
      var last := labels[|labels| - 1];
      var d := Duplicates(prefix);
      if last in prefix && last !in d then d + [last] else d
  }

  /** The `duplicateLabels` memo: one pass over the labels with a `seen` set. */
  method DuplicateLabels(variants: seq<Variant>) returns (duplicates: seq<string>)
    ensures duplicates == Duplicates(FormLabels(variants))
    ensures forall l :: l in duplicates <==> multiset(FormLabels(variants))[l] >= 2
    ensures Distinct(duplicates)
  {
    var labels := FormLabels(variants);
    duplicates := [];
    var seen: set<string> := {};
    var i := 0;
    while i < |labels|
      invariant 0 <= i <= |labels|
      invariant forall l :: l in seen <==> l in labels[..i]
      invariant duplicates == Duplicates(labels[..i])
    {
      var name := labels[i];
      DuplicatesExtend(labels, i);
      if name in seen {
        if name !in duplicates {
          duplicates := duplicates + [name];
        }
      } else {
        seen := seen + {name};
      }
      i := i + 1;
    }
    assert labels[..i] == labels;
    assert duplicates == Duplicates(labels);
    DuplicatesSpec(labels);
  }

  /** `isDuplicate(label)`: whether the row's normalized label is in the duplicate list. */
  function IsDuplicate(duplicates: seq<string>, name: string): bool
  {
    Normalize(name) in duplicates
  }

  /** A label is listed exactly when it occurs at least twice. */
  lemma {:induction false} DuplicatesMembership(labels: seq<string>, x: string)
    ensures x in Duplicates(labels) <==> multiset(labels)[x] >= 2
  {
    if labels != [] {
      var prefix := labels[..|labels| - 1];
      var last := labels[|labels| - 1];
      assert labels == prefix + [last];
      DuplicatesMembership(prefix, x);
      if last in prefix {
        DuplicatesMembership(prefix, last);
      }
    }
  }

  /** One more label extends the prefix by that label and the list as the loop body does. */
  lemma DuplicatesExtend(labels: seq<string>, i: nat)
    requires i < |labels|
    ensures labels[..i + 1] == labels[..i] + [labels[i]]
    ensures var d, x := Duplicates(labels[..i]), labels[i];
      Duplicates(labels[..i + 1]) == if x in labels[..i] && x !in d then d + [x] else d
  {
    assert labels[..i + 1][..i] == labels[..i];
  }

  /** The list holds each repeated label exactly once. */
  lemma DuplicatesSpec(labels: seq<string>)
    ensures forall l :: l in Duplicates(labels) <==> multiset(labels)[l] >= 2
    ensures Distinct(Duplicates(labels))
  {
    forall l ensures l in Duplicates(labels) <==> multiset(labels)[l] >= 2 {
      DuplicatesMembership(labels, l);
    }
    DuplicatesDistinct(labels);
  }

  /** No label is listed twice. */
  lemma {:induction false} DuplicatesDistinct(labels: seq<string>)
    ensures Distinct(Duplicates(labels))
  {
    if labels != [] {
      DuplicatesDistinct(labels[..|labels| - 1]);
    }
  }

  /** The list for a prefix of the labels is a prefix of the list for all of them. */
  lemma {:induction false} DuplicatesPrefix(labels: seq<string>, k: nat)
    requires k <= |labels|
    ensures |Duplicates(labels[..k])| <= |Duplicates(labels)|
    ensures Duplicates(labels[..k]) == Duplicates(labels)[..|Duplicates(labels[..k])|]
  {
    if k == |labels| {
      assert labels[..k] == labels;
    } else {
      var prefix := labels[..|labels| - 1];
      assert labels[..k] == prefix[..k];
      DuplicatesPrefix(prefix, k);
    }
  }

  /**
   * Labels are listed in the order of their second occurrences: whenever a
   * later entry has been seen twice by some point of the label list, so has
   * every earlier entry.
   */
  lemma DuplicatesInSecondOccurrenceOrder(labels: seq<string>, i: int, j: int, k: nat)
    requires 0 <= i < j < |Duplicates(labels)| && k <= |labels|
    requires multiset(labels[..k])[Duplicates(labels)[j]] >= 2
    ensures multiset(labels[..k])[Duplicates(labels)[i]] >= 2
  {
    var r := Duplicates(labels);
    var p := Duplicates(labels[..k]);
    DuplicatesPrefix(labels, k);
    DuplicatesDistinct(labels);
    DuplicatesMembership(labels[..k], r[j]);
    var m :| 0 <= m < |p| && p[m] == r[j];
    assert r[m] == r[j];
    assert j < |p|;
    assert p[i] == r[i];
    DuplicatesMembership(labels[..k], r[i]);
  }

  /** The list is empty exactly when no label repeats. */
  lemma {:induction false} DuplicatesEmptyIffDistinct(labels: seq<string>)
    ensures Duplicates(labels) == [] <==> Distinct(labels)
  {
    if labels != [] {
      var prefix := labels[..|labels| - 1];
      var last := labels[|labels| - 1];
      DuplicatesEmptyIffDistinct(prefix);
      if last in prefix {
        var q :| 0 <= q < |prefix| && prefix[q] == last;
        assert labels[q] == labels[|labels| - 1];
      }
      if !Distinct(prefix) {
        var a, b :| 0 <= a < b < |prefix| && prefix[a] == prefix[b];
        assert labels[a] == labels[b];
      }
    }
  }

  /** The row highlight: on exactly the rows whose normalized label occurs at least twice, never on a blank label. */
  lemma IsDuplicateMeaning(variants: seq<Variant>, name: string)
    ensures IsDuplicate(Duplicates(FormLabels(variants)), name)
        <==> Normalize(name) != "" && multiset(FormLabels(variants))[Normalize(name)] >= 2
    ensures AllWhitespace(name) ==> !IsDuplicate(Duplicates(FormLabels(variants)), name)
  {
    var labels := FormLabels(variants);
    DuplicatesMembership(labels, Normalize(name));
    if multiset(labels)[Normalize(name)] >= 2 {
      assert Normalize(name) in labels;
    }
    TrimBlank(name);
  }

  // ---------------------------------------------------------------------------
  // Handlers that build a new list

  /** The editor's state as its parent owns it: the "has variants" switch and the list. */
  datatype Editor = Editor(hasVariants: bool, variants: seq<Variant>)

  /** `handleToggleVariants`: switching on an empty list seeds one default row. */
  function ToggleVariants(checked: bool, variants: seq<Variant>, now: string): (r: Editor)
    ensures r.hasVariants == checked
    ensures checked && variants == [] ==>
      |r.variants| == 1 && r.variants[0].labelText == "" && r.variants[0].price == 0.0 &&
      r.variants[0].stock == 0.0 && r.variants[0].isDefault && r.variants[0].sortOrder == 0
    ensures checked && variants == [] ==> Unranked(r.variants[0]) == EmptyVariant(now)
    ensures !(checked && variants == []) ==> r.variants == variants
    ensures Consistent(variants) ==> Consistent(r.variants)
  {
    if checked && variants == [] then
      var seeded := [EmptyVariant(now).(isDefault := true)];
      assert DefaultAt(seeded, 0);
      Editor(checked, seeded)
    else
      Editor(checked, variants)
  }

  /** `handleAddVariant`: appends an empty row numbered after the others, default when it is the only one. */
  function AddVariant(variants: seq<Variant>, now: string): (r: seq<Variant>)
    ensures |r| == |variants| + 1 && r[..|variants|] == variants
    ensures r[|variants|].sortOrder == |variants|
    ensures r[|variants|].isDefault <==> variants == []
    ensures Unranked(r[|variants|]) == EmptyVariant(now)
  {
    var added := EmptyVariant(now).(sortOrder := |variants|, isDefault := |variants| == 0);
    variants + [added]
  }

  /** A freshly added row has a blank label, so it changes neither the compared labels nor the duplicate list. */
  lemma AddedRowNotCompared(variants: seq<Variant>, now: string)
    ensures FormLabels(AddVariant(variants, now)) == FormLabels(variants)
  {
    var r := AddVariant(variants, now);
    var n := |variants|;
    assert Normalize(r[n].labelText) == "";
    assert NormalizedLabels(r)[..n] == NormalizedLabels(variants);
  }

  /** Gives every row its position as `sort_order`. */
  function Renumber(vs: seq<Variant>): (r: seq<Variant>)
    ensures |r| == |vs| && Contiguous(r)
    ensures forall k :: 0 <= k < |r| ==> r[k] == vs[k].(sortOrder := k)
  {
    seq(|vs|, k requires 0 <= k < |vs| => vs[k].(sortOrder := k))
  }

  /** The position in the old list of row `k` of the list without row `index`. */
  function Origin(variants: seq<Variant>, index: int, k: nat): nat
  {
    if 0 <= index < |variants| && index <= k then k + 1 else k
  }

  /** Whether the row being removed carried the default flag (`variants[index]?.is_default`). */
  predicate RemovedDefault(variants: seq<Variant>, index: int)
  {
    0 <= index < |variants| && variants[index].isDefault
  }

  /**
   * `handleRemoveVariant`: drops row `index` (no row when it is out of range),
   * makes the first remaining row default when the default was removed, and
   * renumbers.
   */
  function RemoveVariant(variants: seq<Variant>, index: int): (r: seq<Variant>)
    ensures |r| == if 0 <= index < |variants| then |variants| - 1 else |variants|
    ensures Contiguous(r)
    ensures forall k :: 0 <= k < |r| ==>
      Origin(variants, index, k) < |variants| &&
      Unranked(r[k]) == Unranked(variants[Origin(variants, index, k)])
    ensures forall k :: 0 <= k < |r| ==>
      r[k].isDefault == (variants[Origin(variants, index, k)].isDefault || (k == 0 && RemovedDefault(variants, index)))
  {
    var kept := if 0 <= index < |variants| then variants[..index] + variants[index + 1..] else variants;
    var promoted := if RemovedDefault(variants, index) && |kept| > 0 then kept[0 := kept[0].(isDefault := true)] else kept;
    assert forall k :: 0 <= k < |kept| ==> kept[k] == variants[Origin(variants, index, k)];
    Renumber(promoted)
  }

  /** `handleSetDefaultVariant`: row `index` becomes the default and every other row stops being one. */
  function SetDefaultVariant(variants: seq<Variant>, index: int): (r: seq<Variant>)
    ensures |r| == |variants|
    ensures forall k :: 0 <= k < |r| ==> (r[k].isDefault <==> k == index)
    ensures forall k :: 0 <= k < |r| ==> r[k].(isDefault := variants[k].isDefault) == variants[k]
  {
    seq(|variants|, k requires 0 <= k < |variants| => variants[k].(isDefault := k == index))
  }

  // ---------------------------------------------------------------------------
  // Properties of the handlers

  /** Adding keeps positions numbered and keeps (or, on an empty list, creates) the single default. */
  lemma AddKeepsConsistent(variants: seq<Variant>, now: string)
    requires Consistent(variants)
    ensures Consistent(AddVariant(variants, now))
  {
    AddKeepsExactlyOneDefault(variants, now);
    var r := AddVariant(variants, now);
    assert forall i :: 0 <= i < |variants| ==> r[i] == r[..|variants|][i];
  }

  /** A list that is empty or has exactly one default: the default rule alone, whatever the positions. */
  predicate OneDefaultIfAny(vs: seq<Variant>)
  {
    vs == [] || ExactlyOneDefault(vs)
  }

  /** Adding keeps exactly one default, also on a list whose positions are not contiguous. */
  lemma AddKeepsExactlyOneDefault(variants: seq<Variant>, now: string)
    requires OneDefaultIfAny(variants)
    ensures ExactlyOneDefault(AddVariant(variants, now))
  {
    var r := AddVariant(variants, now);
    var n := |variants|;
    assert forall i :: 0 <= i < n ==> r[i] == r[..n][i] == variants[i];
    if variants == [] {
      assert DefaultAt(r, 0);
    } else {
      var d :| 0 <= d < n && DefaultAt(variants, d);
      forall j | 0 <= j < |r| && j != d ensures !r[j].isDefault {
        if j < n {
          assert r[j] == variants[j];
        }
      }
      assert DefaultAt(r, d);
    }
  }

  /** Removing another row keeps the default, at its shifted position. */
  lemma RemoveOtherRow(variants: seq<Variant>, index: int, d: int)
    requires DefaultAt(variants, d) && d != index
    ensures DefaultAt(RemoveVariant(variants, index), if 0 <= index < d then d - 1 else d)
  {
    var r := RemoveVariant(variants, index);
    var e: nat := if 0 <= index < d then d - 1 else d;
    assert Origin(variants, index, e) == d;
    forall j | 0 <= j < |r| && j != e ensures !r[j].isDefault {
      assert Origin(variants, index, j) != d;
    }
  }

  /** A non-empty list without a default gets none from adding a row: only the first row of an empty list is made default. */
  lemma AddKeepsNoDefault(variants: seq<Variant>, now: string)
    requires variants != [] && !HasDefault(variants)
    ensures !HasDefault(AddVariant(variants, now))
  {
    var r := AddVariant(variants, now);
    forall j | 0 <= j < |variants| ensures !r[j].isDefault {
      assert r[j] == r[..|variants|][j];
    }
  }

  /** A list without a default gets none from removing a row: promotion happens only when the default is removed. */
  lemma RemoveKeepsNoDefault(variants: seq<Variant>, index: int)
    requires !HasDefault(variants)
    ensures !HasDefault(RemoveVariant(variants, index))
  {
  }

  /** Removing from a list with exactly one default leaves exactly one default, unless the list empties. */
  lemma RemoveKeepsExactlyOneDefault(variants: seq<Variant>, index: int)
    requires ExactlyOneDefault(variants)
    ensures RemoveVariant(variants, index) == [] || ExactlyOneDefault(RemoveVariant(variants, index))
  {
    var d :| 0 <= d < |variants| && DefaultAt(variants, d);
    if d == index {
      if |variants| >= 2 {
        RemoveDefaultPromotesFirst(variants, index);
      }
    } else {
      RemoveOtherRow(variants, index, d);
    }
  }

  /** Removing never creates a second default. */
  lemma RemoveKeepsAtMostOneDefault(variants: seq<Variant>, index: int)
    requires AtMostOneDefault(variants)
    ensures AtMostOneDefault(RemoveVariant(variants, index))
  {
    var r := RemoveVariant(variants, index);
    forall i, j | 0 <= i < |r| && 0 <= j < |r| && r[i].isDefault && r[j].isDefault
      ensures i == j
    {
      var oi, oj := Origin(variants, index, i), Origin(variants, index, j);
      if RemovedDefault(variants, index) {
        assert oi != index && oj != index;
        assert !variants[oi].isDefault && !variants[oj].isDefault;
      } else {
        assert variants[oi].isDefault && variants[oj].isDefault;
      }
    }
  }

  /** Removing a row other than a flagged one keeps that row's flag, at its shifted position. */
  lemma RemoveKeepsFlag(variants: seq<Variant>, index: int, d: int)
    requires 0 <= d < |variants| && variants[d].isDefault && d != index
    ensures var r, e := RemoveVariant(variants, index), if 0 <= index < d then d - 1 else d;
      e < |r| && r[e].isDefault
  {
    var e: nat := if 0 <= index < d then d - 1 else d;
    assert Origin(variants, index, e) == d;
  }

  /** While rows remain, removing never loses the default designation. */
  lemma RemoveKeepsSomeDefault(variants: seq<Variant>, index: int)
    requires HasDefault(variants)
    ensures RemoveVariant(variants, index) == [] || HasDefault(RemoveVariant(variants, index))
  {
    var r := RemoveVariant(variants, index);
    if r != [] {
      if RemovedDefault(variants, index) {
        assert r[0].isDefault;
      } else {
        var d :| 0 <= d < |variants| && variants[d].isDefault;
        RemoveKeepsFlag(variants, index, d);
      }
    }
  }

  /** Removing the default with at least two rows present promotes the new first row. */
  lemma RemoveDefaultPromotesFirst(variants: seq<Variant>, index: int)
    requires DefaultAt(variants, index) && |variants| >= 2
    ensures DefaultAt(RemoveVariant(variants, index), 0)
  {
    var r := RemoveVariant(variants, index);
    forall j | 0 < j < |r| ensures !r[j].isDefault {
      assert Origin(variants, index, j) != index;
    }
  }

  /** Setting the default at a row index gives exactly that row; out of range leaves no default at all. */
  lemma SetDefaultChoosesOne(variants: seq<Variant>, index: int)
    ensures 0 <= index < |variants| ==> DefaultAt(SetDefaultVariant(variants, index), index)
    ensures !(0 <= index < |variants|) ==> !HasDefault(SetDefaultVariant(variants, index))
  {
  }

  /** Setting the same default twice is setting it once. */
  lemma SetDefaultIdempotent(variants: seq<Variant>, index: int)
    ensures SetDefaultVariant(SetDefaultVariant(variants, index), index) == SetDefaultVariant(variants, index)
  {
  }

  /** The structural actions of the editor. */
  datatype Action = Add(now: string) | Remove(index: int) | MakeDefault(index: int)

  function Step(vs: seq<Variant>, a: Action): seq<Variant>
  {
    match a
    case Add(now) => AddVariant(vs, now)
    case Remove(i) => RemoveVariant(vs, i)
    case MakeDefault(i) => SetDefaultVariant(vs, i)
  }

  function Run(vs: seq<Variant>, actions: seq<Action>): seq<Variant>
    decreases |actions|
  {
    if actions == [] then vs else Run(Step(vs, actions[0]), actions[1..])
  }

  /** Every default choice names a row that exists when it is made (the radio buttons offer only those). */
  predicate Admissible(vs: seq<Variant>, actions: seq<Action>)
    decreases |actions|
  {
    actions == [] ||
    ((actions[0].MakeDefault? ==> 0 <= actions[0].index < |vs|) && Admissible(Step(vs, actions[0]), actions[1..]))
  }

  /** One action keeps the list consistent. */
  lemma StepKeepsConsistent(vs: seq<Variant>, a: Action)
    requires Consistent(vs)
    requires a.MakeDefault? ==> 0 <= a.index < |vs|
    ensures Consistent(Step(vs, a))
  {
    StepKeepsOneDefault(vs, a);
    if a.Add? {
      AddKeepsConsistent(vs, a.now);
    }
  }

  /** One action keeps the default rule, whatever the positions. */
  lemma StepKeepsOneDefault(vs: seq<Variant>, a: Action)
    requires OneDefaultIfAny(vs)
    requires a.MakeDefault? ==> 0 <= a.index < |vs|
    ensures OneDefaultIfAny(Step(vs, a))
  {
    match a
    case Add(now) => AddKeepsExactlyOneDefault(vs, now);
    case Remove(i) =>
      if vs != [] {
        RemoveKeepsExactlyOneDefault(vs, i);
      }
    case MakeDefault(i) =>
      SetDefaultChoosesOne(vs, i);
  }

  /**
   * Any admissible run keeps the default rule, also from a list whose positions
   * are not contiguous (such as one saved after blank rows were dropped).
   */
  lemma {:induction false} RunKeepsOneDefault(vs: seq<Variant>, actions: seq<Action>)
    requires OneDefaultIfAny(vs) && Admissible(vs, actions)
    ensures OneDefaultIfAny(Run(vs, actions))
    decreases |actions|
  {
    if actions != [] {
      StepKeepsOneDefault(vs, actions[0]);
      RunKeepsOneDefault(Step(vs, actions[0]), actions[1..]);
    }
  }

  /** Any admissible run of adds, removes and default choices keeps the list consistent. */
  lemma {:induction false} RunKeepsConsistent(vs: seq<Variant>, actions: seq<Action>)
    requires Consistent(vs) && Admissible(vs, actions)
    ensures Consistent(Run(vs, actions))
    decreases |actions|
  {
    if actions != [] {
      StepKeepsConsistent(vs, actions[0]);
      RunKeepsConsistent(Step(vs, actions[0]), actions[1..]);
    }
  }

  // ---------------------------------------------------------------------------
  // Field edits

  /** What an edited number field holds: a cleared box, or the number typed into it. */
  datatype NumberInput = Cleared | Entered(value: real)

  /** The edits the row inputs send. */
  datatype Edit =
    | EditLabel(labelText: string)
    | EditMeasure(measure: string)
    | EditPrice(price: NumberInput)
    | EditStock(stock: NumberInput)

  /** The number stored for an input: a cleared box stores 0. */
  function NumberValue(input: NumberInput): real
  {
    match input
    case Cleared => 0.0
    case Entered(x) => x
  }

  /** The row after one field edit: only the named field changes; label and measure are stored as typed. */
  function ApplyEdit(v: Variant, edit: Edit): (r: Variant)
    ensures r.id == v.id && r.productId == v.productId && r.createdAt == v.createdAt
    ensures r.isDefault == v.isDefault && r.sortOrder == v.sortOrder
    ensures r.labelText == (if edit.EditLabel? then edit.labelText else v.labelText)
    ensures r.measureValue == (if edit.EditMeasure? then Some(edit.measure) else v.measureValue)
    ensures r.price == (if edit.EditPrice? then NumberValue(edit.price) else v.price)
    ensures r.stock == (if edit.EditStock? then NumberValue(edit.stock) else v.stock)
  {
    match edit
    case EditLabel(s) => v.(labelText := s)
    case EditMeasure(s) => v.(measureValue := Some(s))
    case EditPrice(n) => v.(price := NumberValue(n))
    case EditStock(n) => v.(stock := NumberValue(n))
  }

  /** Clearing the price or the stock box stores 0, never leaves the old value. */
  lemma ClearedStoresZero(v: Variant)
    ensures ApplyEdit(v, EditPrice(Cleared)).price == 0.0
    ensures ApplyEdit(v, EditStock(Cleared)).stock == 0.0
    ensures ApplyEdit(v, EditPrice(Cleared)) == v.(price := 0.0)
    ensures ApplyEdit(v, EditStock(Cleared)) == v.(stock := 0.0)
  {
  }

  /** A variant row object, shared between the caller's list and the copy the edit handler makes. */
  class VariantRecord {
    var id: string
    var productId: string
    var labelText: string
    var measureValue: Option<string>
    var price: real
    var stock: real
    var isDefault: bool
    var sortOrder: int
    var createdAt: string

    function Snapshot(): Variant
      reads this
    {
      Variant(id, productId, labelText, measureValue, price, stock, isDefault, sortOrder, createdAt)
    }

    constructor (v: Variant)
      ensures Snapshot() == v
    {
      id, productId, labelText, measureValue := v.id, v.productId, v.labelText, v.measureValue;
      price, stock, isDefault, sortOrder, createdAt := v.price, v.stock, v.isDefault, v.sortOrder, v.createdAt;
    }
  }

  /**
   * `handleVariantChange`: copies the list (the copy holds the same row
   * objects) and writes the field into row `index` in place, so the caller's
   * list sees the change too.
   */
  method ChangeVariant(variants: seq<VariantRecord>, index: int, edit: Edit) returns (updated: seq<VariantRecord>)
    requires 0 <= index < |variants|
    modifies variants[index]
    ensures updated == variants
    ensures variants[index].Snapshot() == ApplyEdit(old(variants[index].Snapshot()), edit)
    ensures forall j :: 0 <= j < |variants| && variants[j] != variants[index] ==> unchanged(variants[j])
  {
    updated := variants;
    var row := updated[index];
    match edit
    case EditLabel(s) => row.labelText := s;
    case EditMeasure(s) => row.measureValue := Some(s);
    case EditPrice(n) => row.price := NumberValue(n);
    case EditStock(n) => row.stock := NumberValue(n);
  }
}
