# Storefront admin panel: variant editor, variant save, order sheet, middleware

A Dafny model of the decision logic at the centre of a small e-commerce
admin panel, with proofs of what that logic guarantees.

- **Product-variant editor** (`VariantEditor`, `variant_editor.dfy`). A product's variants are
  its presentations or measures. The model covers:
  - the list of variants as the admin edits it;
  - the handlers that toggle variant mode, add a row, remove a row, choose the default row and edit a field;
  - the editor's duplicate-label detector, with its per-row highlight.
- **Saving the variants** (`VariantServices`, `variant_services.dfy`). Saving happens in these steps:
  1. Labels and measures are trimmed and blank-label rows are dropped. Each surviving row keeps its input position as `sort_order`.
  2. Labels are compared without regard to case. Duplicates reject the save, and the error lists them.
  3. The product's stored rows are replaced: first delete them all, then insert the cleaned rows.

  The database is an abstract table of rows. Whether the delete call or the insert call fails is given as a parameter.
- **Order detail sheet** (`OrderSheet`, `order_sheet.dfy`). The model covers:
  - when the "mark as paid" button is enabled, and when "mark as shipped" is;
  - the line subtotals and the displayed total;
  - the default WhatsApp message, and the choice between a typed message and that default.
- **Request middleware** (`Routing`, `routing.dfy`). For each request path it either redirects or lets the request through:
  - the mistyped login routes go to `/admin/login`;
  - a trailing slash is stripped from `/admin/...` paths;
  - the query string is kept in both cases.
- **Shared pieces.**
  - `Text` (`text.dfy`) models JavaScript's `trim` and `toLowerCase` on character sequences.
  - `Wrappers` (`wrappers.dfy`) holds `Option` and `Result`.

The handlers that build a new list are pure functions on `seq<Variant>`.
`handleVariantChange` is different. It copies the array but writes into the row
objects, which the copy shares with the caller's list. So it is a method on
objects of class `VariantRecord`, and its contract says the caller's row changes too.
`duplicateLabels` is a loop with a `seen` set. It is a method proved against the
specification function `Duplicates`. The save is a method over the abstract table.
It returns the new table, the database calls it made in order, and the error if any.

Five behaviours of the code that a reader might expect to be otherwise:

- The save assigns `sort_order` from each row's position *before* blank rows
  are dropped, so saved `sort_order`s need not be contiguous
  (`VariantServices.CleanSpec`).
- The replace-all save is two separate calls, not one atomic update: when the
  insert fails, the product is left with no variant rows
  (`VariantServices.UpdateProductVariants`).
- The "mark as shipped" guard does not exclude `canceled`, so a paid, canceled
  order can be marked as shipped (`OrderSheet.CanceledPaidIsShippable`).
- `handleVariantChange` mutates row objects that the caller's list shares
  (`VariantEditor.ChangeVariant`).
- Cleaning does not move the default flag: when the default row's label is
  blank, the save stores rows with no default at all
  (`VariantServices.SaveCanDropDefault`). The editor's handlers keep exactly
  one default on any list that has one, including one reloaded with gaps in
  its positions (`VariantEditor.RunKeepsOneDefault`). A product saved without
  a default keeps none through adds and removes until a row is chosen as the
  default (`VariantEditor.AddKeepsNoDefault`,
  `VariantEditor.RemoveKeepsNoDefault`).

## Model

| member | source | states |
|---|---|---|
| Text.TrimSpec | components/admin/products/product-variants-form.tsx:45 | `trim` returns an infix of the input with only whitespace before and after it, and starts and ends with a character that is not whitespace |
| Text.Trim | lib/variant-services.ts:23 | `trim` never lengthens a string; `Text.TrimSpec`, `Text.TrimBlank` and `Text.TrimIdempotent` state what it keeps and drops |
| Text.TrimBlank | lib/variant-services.ts:23-27 | trimming gives the empty string exactly when every character is whitespace, which is when the cleaning filter drops the row |
| Text.TrimIdempotent | lib/variant-services.ts:23 | trimming an already trimmed label changes nothing |
| Text.LowerChar | components/admin/products/product-variants-form.tsx:45 | capitals A–Z and the Latin-1 capitals À–Þ (except ×), such as `Ñ` and `É`, map to their lower-case letter 32 code points up; characters outside those ranges are unchanged |
| Text.Lower | lib/variant-services.ts:30 | `toLowerCase` maps character by character and keeps the length |
| Text.LowerEmpty | lib/variant-services.ts:27-30 | only the empty label lower-cases to the empty label, so lower-casing before or after the blank filter agrees |
| VariantEditor.EmptyVariant | components/admin/products/product-variants-form.tsx:22-32 | the blank row; `VariantEditor.AddedRowNotCompared` and `VariantServices.AddedRowNotSaved` state that, left blank, it is neither compared nor saved |
| VariantEditor.NormalizedLabels | components/admin/products/product-variants-form.tsx:45 | the `map` step: entry `i` is row `i`'s label trimmed and lower-cased |
| VariantEditor.NonBlank | components/admin/products/product-variants-form.tsx:45 | the `filter` step: no entry is empty, and every non-empty label is kept exactly as many times as it occurs |
| VariantEditor.FormLabels | components/admin/products/product-variants-form.tsx:45 | the compared labels are never empty, at most one per row, and each non-empty normalized row label occurs among them as often as among the rows |
| VariantEditor.DuplicateLabels | components/admin/products/product-variants-form.tsx:44-60 | the loop with its `seen` set returns exactly `Duplicates` of the labels: every label occurring at least twice, and each only once |
| VariantEditor.DuplicatesMembership | components/admin/products/product-variants-form.tsx:49-57 | a label is in the duplicate list exactly when it occurs at least twice |
| VariantEditor.DuplicatesExtend | components/admin/products/product-variants-form.tsx:50-56 | one more label extends the list exactly as the loop body does: append when seen and not yet listed |
| VariantEditor.DuplicatesSpec | components/admin/products/product-variants-form.tsx:44-60 | membership iff at least two occurrences, and no label listed twice |
| VariantEditor.DuplicatesDistinct | components/admin/products/product-variants-form.tsx:51-53 | the `includes` test keeps the list free of repeats |
| VariantEditor.DuplicatesPrefix | components/admin/products/product-variants-form.tsx:49-57 | the list built from a prefix of the labels is a prefix of the final list (the loop only appends) |
| VariantEditor.DuplicatesInSecondOccurrenceOrder | components/admin/products/product-variants-form.tsx:49-57 | labels are listed in the order of their second occurrence |
| VariantEditor.DuplicatesEmptyIffDistinct | components/admin/products/product-variants-form.tsx:62 | `hasDuplicates` is false exactly when all compared labels are distinct |
| VariantEditor.IsDuplicate | components/admin/products/product-variants-form.tsx:124-126 | the row test: its meaning is stated by `VariantEditor.IsDuplicateMeaning` |
| VariantEditor.IsDuplicateMeaning | components/admin/products/product-variants-form.tsx:124-126 | a row is highlighted exactly when its normalized label is non-empty and occurs at least twice; a blank label never is |
| VariantEditor.ToggleVariants | components/admin/products/product-variants-form.tsx:69-77 | the switch takes the new value; turning it on over an empty list seeds one default row at position 0 that is otherwise the row `createEmptyVariant` builds (empty label, zero price and stock, the given timestamp); otherwise the list is untouched; consistency is kept |
| VariantEditor.AddVariant | components/admin/products/product-variants-form.tsx:79-87 | the old rows are kept; the new row is empty, numbered after them, and default exactly when the list was empty |
| VariantEditor.AddedRowNotCompared | components/admin/products/product-variants-form.tsx:79-87 | a freshly added, still blank row leaves the compared labels, and so the duplicate list, unchanged |
| VariantEditor.Renumber | components/admin/products/product-variants-form.tsx:101 | every row gets its position as `sort_order`, and nothing else changes |
| VariantEditor.RemoveVariant | components/admin/products/product-variants-form.tsx:89-104 | row `index` is dropped (nothing when out of range); the rest keep their order and fields; positions are contiguous; the first remaining row becomes default when the default was removed |
| VariantEditor.SetDefaultVariant | components/admin/products/product-variants-form.tsx:116-122 | row `index` is the only default; every other field is unchanged |
| VariantEditor.AddKeepsConsistent | components/admin/products/product-variants-form.tsx:79-87 | adding keeps positions contiguous and exactly one default |
| VariantEditor.AddKeepsExactlyOneDefault | components/admin/products/product-variants-form.tsx:79-87 | adding to an empty list or a list with one default gives exactly one default, whatever the positions |
| VariantEditor.RemoveKeepsExactlyOneDefault | components/admin/products/product-variants-form.tsx:89-104 | removing from a list with one default leaves one default unless the list empties |
| VariantEditor.RemoveOtherRow | components/admin/products/product-variants-form.tsx:89-104 | removing a row other than the default keeps that default as the only one, one place earlier when the removed row came before it |
| VariantEditor.RemoveKeepsAtMostOneDefault | components/admin/products/product-variants-form.tsx:93-98 | removing never creates a second default |
| VariantEditor.RemoveKeepsFlag | components/admin/products/product-variants-form.tsx:89-104 | removing a row other than a flagged one keeps that row flagged, one place earlier when the removed row came before it |
| VariantEditor.AddKeepsNoDefault | components/admin/products/product-variants-form.tsx:79-87 | adding to a non-empty list without a default leaves it without one: only the first row of an empty list is made default |
| VariantEditor.RemoveKeepsNoDefault | components/admin/products/product-variants-form.tsx:89-104 | removing from a list without a default leaves it without one: promotion happens only when the removed row was the default |
| VariantEditor.RemoveKeepsSomeDefault | components/admin/products/product-variants-form.tsx:92-98 | the default designation is never lost while rows remain |
| VariantEditor.RemoveDefaultPromotesFirst | components/admin/products/product-variants-form.tsx:93-98 | removing the default from two or more rows makes the new first row the one default |
| VariantEditor.SetDefaultChoosesOne | components/admin/products/product-variants-form.tsx:116-122 | an index in range gives exactly that default; an index out of range leaves no default |
| VariantEditor.SetDefaultIdempotent | components/admin/products/product-variants-form.tsx:116-122 | choosing the same default twice is choosing it once |
| VariantEditor.StepKeepsConsistent | components/admin/products/product-variants-form.tsx:79-122 | each structural handler keeps the list consistent |
| VariantEditor.RunKeepsConsistent | components/admin/products/product-variants-form.tsx:79-122 | any sequence of adds, removes and default choices among existing rows keeps positions contiguous and exactly one default |
| VariantEditor.StepKeepsOneDefault | components/admin/products/product-variants-form.tsx:79-122 | each structural handler keeps "empty or exactly one default", whatever the positions |
| VariantEditor.RunKeepsOneDefault | components/admin/products/product-variants-form.tsx:79-122 | any admissible run that starts from a list that is empty or has exactly one default keeps it so, also on a list reloaded after a save, whose positions need not be contiguous (a list without a default stays without one under adds and removes, by `VariantEditor.AddKeepsNoDefault` and `VariantEditor.RemoveKeepsNoDefault`) |
| VariantEditor.ApplyEdit | components/admin/products/product-variants-form.tsx:106-112 | an edit changes only its own field; a cleared price or stock box stores 0; label and measure are stored as typed |
| VariantEditor.ClearedStoresZero | components/admin/products/product-variants-form.tsx:109 | clearing the price or the stock stores 0 and nothing else changes |
| VariantEditor.ChangeVariant | components/admin/products/product-variants-form.tsx:106-114 | the new list holds the same row objects; the edited row object now holds the edit, so the caller's list sees it; all other rows are unchanged |
| VariantServices.TidyMeasure | lib/variant-services.ts:24 | the measure is absent exactly when it was missing or blank, and otherwise is the trimmed, non-empty text |
| VariantServices.Tidied | lib/variant-services.ts:21-26 | row `i` is trimmed and carries `sort_order` `i`, its input position |
| VariantServices.KeepLabelledPicks | lib/variant-services.ts:27 | the filter's `k`-th row is the input row at the `k`-th kept position |
| VariantServices.KeptMembership | lib/variant-services.ts:27 | a position is kept exactly when its label is non-empty |
| VariantServices.KeptIncreasing | lib/variant-services.ts:27 | the filter keeps input order |
| VariantServices.KeepLabelled | lib/variant-services.ts:27 | the filter drops rows and keeps only rows with a non-empty label; `VariantServices.KeepLabelledPicks` and `VariantServices.KeptMembership` say exactly which |
| VariantServices.Clean | lib/variant-services.ts:20-27 | the cleaned list is no longer than the input and has no empty label; `VariantServices.CleanSpec` characterises it fully |
| VariantServices.AddedRowNotSaved | lib/variant-services.ts:20-27 | saving after adding a row whose label was never typed saves the same rows as before |
| VariantServices.SaveCanDropDefault | lib/variant-services.ts:20-27 | when the default row's label is blank, cleaning keeps only the other row, so the saved rows have no default |
| VariantServices.CleanSpec | lib/variant-services.ts:20-27 | every cleaned row is the tidied input row its `sort_order` names, with a non-empty label; `sort_order`s strictly increase; position `i` survives exactly when its label is not all whitespace |
| VariantServices.LowerLabels | lib/variant-services.ts:30 | entry `k` is the lower-cased label of cleaned row `k` |
| VariantServices.IndexOf | lib/variant-services.ts:33 | `indexOf` is -1 or a valid position |
| VariantServices.IndexFromSpec | lib/variant-services.ts:33 | the search finds `x` exactly when it occurs, and stops at its first occurrence |
| VariantServices.IndexOfSpec | lib/variant-services.ts:33 | `indexOf` is -1 exactly for an absent label, and otherwise the first position holding it |
| VariantServices.RepeatsUpTo | lib/variant-services.ts:33 | the first `n` positions report at most `n` labels, each one occurring among them |
| VariantServices.Repeats | lib/variant-services.ts:33-34 | the error list is no longer than the labels and names only labels that occur; `VariantServices.RepeatsCount` gives each label's exact count |
| VariantServices.SetSizeIffDistinct | lib/variant-services.ts:31-32 | the set is never larger than the list, and the two sizes are equal exactly when the labels are distinct |
| VariantServices.CleanAndValidate | lib/variant-services.ts:20-35 | rejects exactly when two cleaned labels are equal after lower-casing; the error lists the `filter`/`indexOf` repeats; otherwise returns the cleaned rows |
| VariantServices.OccurrencesPositive | lib/variant-services.ts:33 | a label occurs before position `n` exactly when some earlier position holds it |
| VariantServices.OccurrencesMultiset | lib/variant-services.ts:33 | the running count over the whole list is the multiset count |
| VariantServices.IndexOfEarlier | lib/variant-services.ts:33 | position `i` is reported exactly when its label occurred earlier |
| VariantServices.RepeatsStep | lib/variant-services.ts:33 | one more position keeps "reported one time fewer than it occurs" |
| VariantServices.RepeatsUpToCount | lib/variant-services.ts:33 | among the first `n` positions, a label occurring `c > 0` times is reported `c − 1` times |
| VariantServices.RepeatsCount | lib/variant-services.ts:33-34 | the error message lists a label occurring `k` times exactly `k − 1` times |
| VariantServices.LowerLabelsKeep | lib/variant-services.ts:27-30 | lower-casing after the blank filter equals filtering blanks after lower-casing |
| VariantServices.CleanedLabelsAreFormLabels | lib/variant-services.ts:20-30 | the service compares the same labels, in the same order, as the editor's detector |
| VariantServices.RejectsIffEditorFlags | lib/variant-services.ts:32 | the save is rejected exactly when the editor shows a non-empty duplicate list |
| VariantServices.RejectionListsEditorDuplicates | lib/variant-services.ts:33-34 | the rejection names the same labels the editor highlights |
| VariantServices.InsertPayload | lib/variant-services.ts:49-57 | one row per cleaned variant, in order, all for the product, carrying label, measure, price, stock, default flag and `sort_order` |
| VariantServices.RowsOf | lib/variant-services.ts:41 | every selected row belongs to the product |
| VariantServices.DeleteProduct | lib/variant-services.ts:38-41 | no row of the product survives the delete |
| VariantServices.RowsOfAppend | lib/variant-services.ts:59-61 | selecting and deleting by product distribute over appending rows |
| VariantServices.RowsOfUniform | lib/variant-services.ts:49-57 | a payload for one product is all of that product's rows |
| VariantServices.RowsOfNone | lib/variant-services.ts:38-45 | a table without the product's rows is untouched by its delete |
| VariantServices.ReplaceAll | lib/variant-services.ts:37-61 | after the delete the product has no rows and a second delete changes nothing; appending a payload for the product makes it exactly the product's rows, and deleting them again restores the cleared table |
| VariantServices.UpdateProductVariants | lib/variant-services.ts:18-66 | rejects exactly when the editor flags duplicates, with no calls, the table unchanged and the `filter`/`indexOf` repeats of the compared labels as the error list; otherwise deletes first; fails with `DeleteFailed` exactly when the delete fails (table unchanged); inserts exactly when rows remain after a successful delete; fails with `InsertFailed` exactly when that insert fails, leaving the product with no rows; otherwise succeeds, replacing the product's rows with the payload and keeping every other product's |
| OrderSheet.MarkPaidEnabled | components/admin/orders/order-sheet.tsx:226 | "mark as paid" is enabled exactly when the payment is pending |
| OrderSheet.MarkShippedEnabled | components/admin/orders/order-sheet.tsx:235 | "mark as shipped" is disabled while the payment is pending or once the order is shipped or delivered, and enabled for a paid order in every other status, canceled included |
| OrderSheet.ActionsExclusive | components/admin/orders/order-sheet.tsx:223-239 | the two buttons are never enabled together |
| OrderSheet.CanceledPaidIsShippable | components/admin/orders/order-sheet.tsx:235 | a paid, canceled order can be marked as shipped |
| OrderSheet.SomeActionEnabled | components/admin/orders/order-sheet.tsx:226-235 | some button is enabled unless the order is paid and already shipped or delivered |
| OrderSheet.LineSubtotal | components/admin/orders/order-sheet.tsx:139 | zero quantity gives zero; non-negative quantity and price give a non-negative subtotal |
| OrderSheet.SubtotalsNonNegative | components/admin/orders/order-sheet.tsx:139 | non-negative lines add up to a non-negative amount, at least any single line's subtotal |
| OrderSheet.DisplayedTotal | components/admin/orders/order-sheet.tsx:145 | the Total row; `OrderSheet.DisplayedTotalIgnoresItems` states that it is the stored total whatever the items |
| OrderSheet.DisplayedTotalIgnoresItems | components/admin/orders/order-sheet.tsx:145 | the Total row does not depend on the items |
| OrderSheet.DisplayedTotalIsSumWhenConsistent | components/admin/orders/order-sheet.tsx:139-145 | when the stored total matches the lines, the Total row is the sum of the shown subtotals |
| OrderSheet.DisplayedTotalNotRecomputed | components/admin/orders/order-sheet.tsx:145 | an order whose stored total is 25 with lines summing to 20 shows 25 |
| OrderSheet.DefaultMessage | components/admin/orders/order-sheet.tsx:47 | the message greets the customer by name and ends with the formatted total and the closing sentence |
| OrderSheet.SentMessage | components/admin/orders/order-sheet.tsx:164 | the typed message is sent unless it is empty, in which case the default is |
| OrderSheet.SentMessageNotEmpty | components/admin/orders/order-sheet.tsx:164 | the link never carries an empty message |
| OrderSheet.BlankCustomMessageIsSent | components/admin/orders/order-sheet.tsx:164 | a typed message of only spaces is not replaced by the default |
| Routing.DropLast | middleware.ts:23 | `slice(0, -1)` drops the last character, and leaves the empty path empty |
| Routing.Middleware | middleware.ts:4-33 | redirects exactly for the three login aliases and for `/admin/` paths ending in `/`; the query string is kept; an alias goes to `/admin/login`; otherwise the redirect drops the trailing slash |
| Routing.GuardNeverDecides | middleware.ts:8-21 | the `!== '/admin/login/'` test never changes the outcome: the alias rule has already taken that path |
| Routing.AdminLoginIsFixed | middleware.ts:8-32 | the login page itself passes through, whatever its query |
| Routing.RedirectsSettle | middleware.ts:4-33 | following the redirects reaches a path that passes through within path length + 2 requests, with the query string unchanged |

## Left out

- Rendering, styling, toasts, React Query caching and invalidation, and the `onValidationChange` effect are not modelled. They only display results or pass them on.
- Unicode case mapping beyond ASCII and Latin-1 capitals is left out. `Text.Lower` maps only those characters and keeps the length, which full `toLowerCase` does not always do.
- `parseFloat` is not modelled. A price or stock input is either cleared or a number already parsed (`NumberInput`). `NaN` and partial parses are left out.
- JavaScript numbers are modelled as exact reals. Floating-point rounding in `quantity * unit_price` is left out.
- The clock (`new Date().toISOString()`) is left out. The creation timestamp is a parameter.
- The database, its network calls and its error messages are left out. The table is an abstract sequence of rows, and each call's failure is a boolean parameter. The rows' `id` and `created_at`, which the database assigns, are not modelled.
- `formatCurrency` and the WhatsApp link builder are not part of this model. The formatted total is a parameter of `OrderSheet.DefaultMessage`.
- The mark-paid and mark-shipped backend calls that the buttons trigger are not part of this model. Only their enabling guards are.
- The middleware's route `matcher` configuration and Next.js request cloning are left out. `Routing.Middleware` is a function of the path and the query string.
- VariantEditor.ChangeVariant: requires an index in range. The form only passes the index of a rendered row; an out-of-range index makes the source throw.
- VariantEditor.ChangeVariant: models only the four fields the form edits (label, measure, price, stock).
- OrderSheet.DefaultMessage: states the greeting, the name and the closing with the total. It does not state where the order number sits.
- OrderSheet.LineSubtotal: states the sign and the zero case, not the exact product, because the rounding of JavaScript numbers is left out.
