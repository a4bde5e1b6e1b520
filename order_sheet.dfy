/**
 * The decision logic of the order detail sheet: which of the two action
 * buttons ("mark as paid", "mark as shipped") is enabled for an order's
 * payment and lifecycle status, the amounts the sheet displays, and which
 * WhatsApp message text the send link carries.
 */
module OrderSheet {

  /** `payment_status`: the values the order filters offer. */
  datatype PaymentStatus = Pending | Paid

  /** `order_status`: the lifecycle values the order filters offer. */
  datatype OrderStatus = New | Contacted | Paid | Shipped | Delivered | Canceled

  /** One order line: `quantity` units at `unit_price`. */
  datatype OrderItem = OrderItem(productName: string, quantity: int, unitPrice: real)

  /** The fields of an order the sheet's decisions read. */
  datatype Order = Order(
    orderNumber: string,
    customerName: string,
    payment: PaymentStatus,
    status: OrderStatus,
    items: seq<OrderItem>,
    totalAmount: real)

  // ---------------------------------------------------------------------------
  // Action guards

  /** The "mark as paid" button is enabled unless the payment is already `paid`. */
  function MarkPaidEnabled(payment: PaymentStatus): (enabled: bool)
    ensures enabled <==> payment == Pending
  {
    !(payment == PaymentStatus.Paid)
  }

  /**
   * The "mark as shipped" button is enabled only for a paid order that is not
   * already shipped or delivered; a canceled order is not excluded.
   */
  function MarkShippedEnabled(payment: PaymentStatus, status: OrderStatus): (enabled: bool)
    ensures payment == Pending ==> !enabled
    ensures status == Shipped || status == Delivered ==> !enabled
    ensures payment == PaymentStatus.Paid && status in {New, Contacted, OrderStatus.Paid, Canceled} ==> enabled
  {
    !(payment != PaymentStatus.Paid || status == Shipped || status == Delivered)
  }

  /** The two buttons are never enabled together. */
  lemma ActionsExclusive(payment: PaymentStatus, status: OrderStatus)
    ensures !(MarkPaidEnabled(payment) && MarkShippedEnabled(payment, status))
  {
  }

  /** A paid, canceled order can still be marked as shipped. */
  lemma CanceledPaidIsShippable()
    ensures MarkShippedEnabled(PaymentStatus.Paid, Canceled)
  {
  }

  /** Some button is enabled unless the order is paid and already shipped or delivered (and, by `ActionsExclusive`, never both). */
  lemma SomeActionEnabled(payment: PaymentStatus, status: OrderStatus)
    ensures MarkPaidEnabled(payment) || MarkShippedEnabled(payment, status)
        <==> !(payment == PaymentStatus.Paid && (status == Shipped || status == Delivered))
  {
  }

  // ---------------------------------------------------------------------------
  // Amounts

  /** The subtotal shown on an item's row. */
  function LineSubtotal(item: OrderItem): (subtotal: real)
    ensures item.quantity == 0 ==> subtotal == 0.0
    ensures item.quantity >= 0 && item.unitPrice >= 0.0 ==> subtotal >= 0.0
  {
    item.quantity as real * item.unitPrice
  }

  /** The sum of the shown subtotals. */
  function SubtotalsSum(items: seq<OrderItem>): real
  {
    if items == [] then 0.0 else SubtotalsSum(items[..|items| - 1]) + LineSubtotal(items[|items| - 1])
  }

  /** Lines of non-negative quantity and price add up to a non-negative amount, at least any one line's. */
  lemma {:induction false} SubtotalsNonNegative(items: seq<OrderItem>, k: int)
    requires forall i :: 0 <= i < |items| ==> items[i].quantity >= 0 && items[i].unitPrice >= 0.0
    ensures SubtotalsSum(items) >= 0.0
    ensures 0 <= k < |items| ==> SubtotalsSum(items) >= LineSubtotal(items[k])
  {
    if items != [] {
      var prefix := items[..|items| - 1];
      SubtotalsNonNegative(prefix, k);
      if 0 <= k < |prefix| {
        assert items[k] == prefix[k];
      }
    }
  }

  /** The "Total" row: the stored `total_amount`, not a sum of the items. */
  function DisplayedTotal(order: Order): real
  {
    order.totalAmount
  }

  /** The shown total does not depend on the lines. */
  lemma DisplayedTotalIgnoresItems(order: Order, items: seq<OrderItem>)
    ensures DisplayedTotal(order.(items := items)) == DisplayedTotal(order)
  {
  }

  /** The stored total agrees with the lines, as the originating system keeps it. */
  predicate TotalConsistent(order: Order)
  {
    order.totalAmount == SubtotalsSum(order.items)
  }

  /** When the stored total is consistent, the shown total is the sum of the shown subtotals. */
  lemma DisplayedTotalIsSumWhenConsistent(order: Order)
    requires TotalConsistent(order)
    ensures DisplayedTotal(order) == SubtotalsSum(order.items)
  {
  }

  /** Nothing in the sheet reconciles the two: an inconsistent order shows a total that is not the lines' sum. */
  lemma DisplayedTotalNotRecomputed()
    ensures var order := Order("1001", "Ana", Pending, New, [OrderItem("Mate", 2, 10.0)], 25.0);
      DisplayedTotal(order) == 25.0 && SubtotalsSum(order.items) == 20.0
  {
    var items := [OrderItem("Mate", 2, 10.0)];
    assert items[..0] == [];
  }

  // ---------------------------------------------------------------------------
  // WhatsApp message

  const Closing: string := ". Coordinamos el pago por acá."

  /** `message` ends with the formatted total followed by the closing sentence. */
  predicate EndsWithClosing(message: string, formattedTotal: string)
  {
    var tail := formattedTotal + Closing;
    |tail| <= |message| && message[|message| - |tail|..] == tail
  }

  /**
   * The default message, built from the customer's name, the order number and
   * the total as the currency formatter renders it.
   */
  function DefaultMessage(order: Order, formattedTotal: string): (message: string)
    ensures |message| > 5 + |order.customerName| + |order.orderNumber| + |formattedTotal|
    ensures message[..5] == "Hola " && message[5..5 + |order.customerName|] == order.customerName
    ensures EndsWithClosing(message, formattedTotal)
  {
    "Hola " + order.customerName + ", recibimos tu pedido #" + order.orderNumber
      + " por " + formattedTotal + Closing
  }

  /** `whatsappMessage || defaultMessage`: the typed text unless it is empty. */
  function SentMessage(custom: string, default: string): (message: string)
    ensures custom != "" ==> message == custom
    ensures custom == "" ==> message == default
  {
    if custom != "" then custom else default
  }

  /** The send link never carries an empty message. */
  lemma SentMessageNotEmpty(order: Order, custom: string, formattedTotal: string)
    ensures SentMessage(custom, DefaultMessage(order, formattedTotal)) != ""
  {
  }

  /** A message of only spaces is not empty, so it is sent as typed. */
  lemma BlankCustomMessageIsSent(default: string)
    ensures SentMessage(" ", default) == " "
  {
  }
}
