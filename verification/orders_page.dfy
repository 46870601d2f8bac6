/** The orders page as a state machine. Each user action or server reply is
    one Event; Step gives the next page state and the HTTP requests the page
    sends in response. Replies carry only their outcome: a listing of
    orders, or success/failure for an update or a delete. */
module OrdersPage {
  import opened Wrappers
  import opened Orders
  import opened Search

  /** The page's state hooks. */
  datatype Page = Page(
    orders: seq<Order>,
    filteredOrders: seq<Order>,
    searchTerm: string,
    editDialogOpen: bool,
    selectedOrder: Option<Order>,
    draft: Draft)

  const InitialPage := Page([], [], "", false, None, InitialDraft)

  /** The requests the page sends to the order store. */
  datatype Request =
    | ListOrders                          // GET /orders
    | PutOrder(id: string, body: Draft)   // PUT /orders/{id}
    | DeleteOrder(id: string)             // DELETE /orders/{id}

  datatype Event =
    | Mounted                                 // first render
    | OrdersListed(reply: Option<seq<Order>>) // GET reply; None when it failed
    | SearchTyped(term: string)
    | EditClicked(order: Order)
    | FieldChanged(field: Field, value: string)
    | DialogClosed                            // Cancel, or the dialog's own close
    | UpdateClicked
    | UpdateReplied(ok: bool)
    | DeleteClicked(id: string)
    | DeleteReplied(ok: bool)

  /** Events handled without contacting the store. */
  predicate IsLocal(e: Event) {
    e.SearchTyped? || e.EditClicked? || e.FieldChanged? || e.DialogClosed?
  }

  datatype Next = Next(page: Page, requests: seq<Request>)

  /** fetchOrders' reply: a listing replaces both the orders and the shown
      orders; a failure changes nothing. */
  function Listed(p: Page, reply: Option<seq<Order>>): (r: Page)
    ensures reply.None? ==> r == p
    ensures reply.Some? ==> r.orders == reply.value && r.filteredOrders == reply.value
    ensures r.searchTerm == p.searchTerm && r.editDialogOpen == p.editDialogOpen
    ensures r.selectedOrder == p.selectedOrder && r.draft == p.draft
  {
    match reply
    case Some(os) => p.(orders := os, filteredOrders := os)
    case None => p
  }

  function Step(p: Page, e: Event): (r: Next)
    ensures |r.requests| <= 1
    ensures IsLocal(e) ==> r.requests == []
    ensures IsLocal(e) ==> r.page.orders == p.orders && r.page.filteredOrders == p.filteredOrders
  {
    match e
    case Mounted => Next(p, [ListOrders])
    case OrdersListed(reply) => Next(Listed(p, reply), [])
    case SearchTyped(term) => Next(p.(searchTerm := term), [])
    case EditClicked(o) =>
      Next(p.(selectedOrder := Some(o), draft := DraftOf(o), editDialogOpen := true), [])
    case FieldChanged(f, v) => Next(p.(draft := HandleChange(p.draft, f, v)), [])
    case DialogClosed => Next(p.(editDialogOpen := false), [])
    case UpdateClicked =>
      // With no order selected, reading its id throws and nothing is sent.
      if p.selectedOrder.Some? then Next(p, [PutOrder(p.selectedOrder.value.id, p.draft)])
      else Next(p, [])
    case UpdateReplied(ok) =>
      if ok then Next(p.(editDialogOpen := false), [ListOrders]) else Next(p, [])
    case DeleteClicked(id) => Next(p, [DeleteOrder(id)])
    case DeleteReplied(ok) => Next(p, if ok then [ListOrders] else [])
  }

  /** filterOrders applied to the page. No event of the page calls it. */
  function ApplyFilter(p: Page, term: string): (r: Page)
    ensures r.orders == p.orders
    ensures forall o :: o in r.filteredOrders <==> o in p.orders && Matches(o, term)
    ensures r.filteredOrders == Filter(p.orders, term)
    ensures r == p.(filteredOrders := r.filteredOrders)
  {
    p.(filteredOrders := Filter(p.orders, term))
  }

  /** The events one after another: the final page and every request sent. */
  function Run(p: Page, es: seq<Event>): (r: Next)
    ensures (forall i :: 0 <= i < |es| ==> IsLocal(es[i])) ==>
      r.requests == [] && r.page.orders == p.orders && r.page.filteredOrders == p.filteredOrders
    ensures |r.requests| <= |es|
    decreases |es|
  {
    if es == [] then Next(p, [])
    else
      var first := Step(p, es[0]);
      var rest := Run(first.page, es[1..]);
      assert forall i :: 0 <= i < |es[1..]| ==> es[1..][i] == es[i + 1];
      Next(rest.page, first.requests + rest.requests)
  }

  /** What holds of every page the events can produce: the dialog is open
      only with an order selected; the draft carries the selected order's
      id; and the shown orders are always the whole listing. */
  predicate Invariant(p: Page) {
    && (p.editDialogOpen ==> p.selectedOrder.Some?)
    && (p.selectedOrder.Some? ==> p.draft.id == Some(p.selectedOrder.value.id))
    && p.filteredOrders == p.orders
  }

  lemma InitialPageInvariant()
    ensures Invariant(InitialPage)
  {
  }

  lemma StepKeepsInvariant(p: Page, e: Event)
    requires Invariant(p)
    ensures Invariant(Step(p, e).page)
  {
  }

  lemma {:induction false} RunKeepsInvariant(p: Page, es: seq<Event>)
    requires Invariant(p)
    ensures Invariant(Run(p, es).page)
    decreases |es|
  {
    if es != [] {
      StepKeepsInvariant(p, es[0]);
      RunKeepsInvariant(Step(p, es[0]).page, es[1..]);
    }
  }

  /** Every update a reachable page sends goes to the selected order's id,
      and the body carries that same id. */
  lemma UpdateTargetsSelectedOrder(p: Page)
    requires Invariant(p)
    ensures var r := Step(p, UpdateClicked);
      forall q :: q in r.requests ==>
        q.PutOrder? && p.selectedOrder.Some? && q.id == p.selectedOrder.value.id && q.body.id == Some(q.id)
    ensures p.selectedOrder.Some? ==>
      Step(p, UpdateClicked).requests == [PutOrder(p.selectedOrder.value.id, p.draft)]
  {
  }

  /** Typing in the search box stores the term and nothing else: the shown
      orders stay as they were. */
  lemma SearchDoesNotFilter(p: Page, term: string)
    ensures Step(p, SearchTyped(term)) == Next(p.(searchTerm := term), [])
    ensures Step(p, SearchTyped(term)).page.filteredOrders == p.filteredOrders
  {
  }

  /** On every reachable page the grid shows the whole listing, whatever the
      search term. */
  lemma ShownOrdersIgnoreSearch(es: seq<Event>)
    ensures Run(InitialPage, es).page.filteredOrders == Run(InitialPage, es).page.orders
  {
    RunKeepsInvariant(InitialPage, es);
  }

  /** Beginning an edit opens the dialog, selects the order and makes the
      draft a field-for-field copy of it. */
  lemma BeginEdit(p: Page, o: Order)
    ensures var r := Step(p, EditClicked(o));
      && r.requests == []
      && r.page.editDialogOpen
      && r.page.selectedOrder == Some(o)
      && OrderOf(r.page.draft) == Some(o)
      && r.page.orders == p.orders && r.page.filteredOrders == p.filteredOrders
      && r.page.searchTerm == p.searchTerm
  {
    DraftRoundTrip(o, DraftOf(o));
  }

  /** Editing a field changes the draft only. */
  lemma EditTouchesDraftOnly(p: Page, f: Field, v: string)
    ensures var r := Step(p, FieldChanged(f, v));
      && r.requests == []
      && r.page == p.(draft := r.page.draft)
      && Get(r.page.draft, f) == v
      && (forall g :: g != f ==> Get(r.page.draft, g) == Get(p.draft, g))
  {
  }

  /** Cancel only closes the dialog: no request, and the orders, the shown
      orders, the selection and the draft stay as they were. */
  lemma CancelOnlyCloses(p: Page)
    ensures Step(p, DialogClosed) == Next(p.(editDialogOpen := false), [])
  {
  }

  /** A failed update changes nothing: the dialog stays open with the draft
      intact and the orders as they were. */
  lemma FailedUpdateKeepsDraft(p: Page)
    ensures Step(p, UpdateReplied(false)) == Next(p, [])
  {
  }

  /** A failed delete changes nothing. */
  lemma FailedDeleteChangesNothing(p: Page)
    ensures Step(p, DeleteReplied(false)) == Next(p, [])
  {
  }

  /** A successful update closes the dialog and lists the orders again; the
      listing, when it arrives, replaces the orders and the shown orders. */
  lemma SuccessfulUpdate(p: Page, listing: Option<seq<Order>>)
    ensures var r := Run(p, [UpdateReplied(true), OrdersListed(listing)]);
      && r.requests == [ListOrders]
      && !r.page.editDialogOpen
      && r.page.draft == p.draft && r.page.selectedOrder == p.selectedOrder
      && (listing.Some? ==> r.page.orders == listing.value && r.page.filteredOrders == listing.value)
      && (listing.None? ==> r.page.orders == p.orders && r.page.filteredOrders == p.filteredOrders)
  {
    var p1 := Step(p, UpdateReplied(true)).page;
    RunCons(p, UpdateReplied(true), [OrdersListed(listing)]);
    RunCons(p1, OrdersListed(listing), []);
    assert [UpdateReplied(true)] + [OrdersListed(listing)] == [UpdateReplied(true), OrdersListed(listing)];
    assert [OrdersListed(listing)] + [] == [OrdersListed(listing)];
  }

  lemma RunCons(p: Page, e: Event, es: seq<Event>)
    ensures var first := Step(p, e);
      var rest := Run(first.page, es);
      Run(p, [e] + es) == Next(rest.page, first.requests + rest.requests)
  {
    assert ([e] + es)[1..] == es;
  }

  /** A delete is confirmed by the store before the page changes: the click
      only sends the request, and a success only lists the orders again. */
  lemma DeleteIsNotOptimistic(p: Page, id: string)
    ensures Step(p, DeleteClicked(id)) == Next(p, [DeleteOrder(id)])
    ensures Step(p, DeleteReplied(true)) == Next(p, [ListOrders])
  {
  }

  /** Opening an order, editing it in any way and cancelling sends nothing
      and leaves the orders and the shown orders as they were. */
  lemma {:induction false} EditThenCancelIsLocal(p: Page, o: Order, edits: seq<(Field, string)>)
    ensures var es := [EditClicked(o)] + Edits(edits) + [DialogClosed];
      var r := Run(p, es);
      && r.requests == []
      && r.page.orders == p.orders && r.page.filteredOrders == p.filteredOrders
      && !r.page.editDialogOpen
  {
    var es := [EditClicked(o)] + Edits(edits) + [DialogClosed];
    assert forall i :: 0 <= i < |es| ==> IsLocal(es[i]);
    LastStepCloses(p, es);
  }

  /** The field edits as events. */
  function Edits(edits: seq<(Field, string)>): (es: seq<Event>)
    ensures |es| == |edits|
    ensures forall i :: 0 <= i < |es| ==> es[i] == FieldChanged(edits[i].0, edits[i].1)
  {
    seq(|edits|, i requires 0 <= i < |edits| => FieldChanged(edits[i].0, edits[i].1))
  }

  /** A run that ends with closing the dialog leaves it closed. */
  lemma {:induction false} LastStepCloses(p: Page, es: seq<Event>)
    requires es != [] && es[|es| - 1] == DialogClosed
    ensures !Run(p, es).page.editDialogOpen
    decreases |es|
  {
    if |es| > 1 {
      assert es[1..][|es[1..]| - 1] == DialogClosed;
      LastStepCloses(Step(p, es[0]).page, es[1..]);
    }
  }

  /** A sample order: ten bolts at 1.00 plus 5.00 delivery. */
  const Bolt := Order("1", "ORD-1", "Bolt", "10", "Supplier", "1.00", "5.00", "15.00", "pending")

  /** Three events of which the first two send nothing: the run sends
      exactly what the third sends. */
  lemma QuietThenSend(p: Page, e1: Event, e2: Event, e3: Event, p1: Page, p2: Page)
    requires Step(p, e1) == Next(p1, [])
    requires Step(p1, e2) == Next(p2, [])
    ensures Run(p, [e1, e2, e3]).requests == Step(p2, e3).requests
  {
    var rs := Step(p2, e3).requests;
    assert Run(p2, [e3]).requests == rs by {
      RunCons(p2, e3, []);
      assert [e3] + [] == [e3];
    }
    assert Run(p1, [e2, e3]).requests == rs by {
      RunCons(p1, e2, [e3]);
      assert [e2] + [e3] == [e2, e3];
    }
    RunCons(p, e1, [e2, e3]);
    assert [e1] + [e2, e3] == [e1, e2, e3];
  }

  /** Open an order, set its quantity, press Update: the one request is a
      PUT of the order with that quantity and the total recomputed. */
  lemma EditQuantityUpdate(p: Page, o: Order, v: string)
    ensures var es := [EditClicked(o), FieldChanged(Quantity, v), UpdateClicked];
      Run(p, es).requests
      == [PutOrder(o.id, DraftOf(o).(quantity := v, totalPrice := TotalPriceText(o.unitPrice, v, o.deliveryCharges)))]
  {
    var p1 := Step(p, EditClicked(o)).page;
    assert p1.draft == DraftOf(o) && p1.selectedOrder == Some(o);
    var d := HandleChange(DraftOf(o), Quantity, v);
    var p2 := p1.(draft := d);
    assert Step(p1, FieldChanged(Quantity, v)) == Next(p2, []) by {
      StepFieldChanged(p1, Quantity, v);
    }
    QuietThenSend(p, EditClicked(o), FieldChanged(Quantity, v), UpdateClicked, p1, p2);
    assert Step(p2, UpdateClicked).requests == [PutOrder(o.id, d)] by {
      StepUpdateClicked(p2);
    }
    QuantityChangeOfCopy(o, v);
  }

  lemma StepFieldChanged(p: Page, f: Field, v: string)
    ensures Step(p, FieldChanged(f, v)) == Next(p.(draft := HandleChange(p.draft, f, v)), [])
  {
    var e := FieldChanged(f, v);
    assert e.FieldChanged? && e.field == f && e.value == v;
  }

  lemma StepUpdateClicked(p: Page)
    requires p.selectedOrder.Some?
    ensures Step(p, UpdateClicked) == Next(p, [PutOrder(p.selectedOrder.value.id, p.draft)])
  {
  }

  /** Sample run: edit the bolt order, set the quantity to 20, press
      Update; the store receives quantity "20" and total "25.00". */
  lemma EditBoltScenario(p: Page)
    ensures var es := [EditClicked(Bolt), FieldChanged(Quantity, "20"), UpdateClicked];
      Run(p, es).requests == [PutOrder("1", DraftOf(Bolt).(quantity := "20", totalPrice := "25.00"))]
  {
    EditQuantityUpdate(p, Bolt, "20");
    TotalPriceScenarioExample();
  }
}
