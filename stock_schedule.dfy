/** The plugin's decision logic. Each product carries two metadata values,
    a date and an enable flag, that the product edit form saves; a daily
    sweep over the catalog marks every product whose flag is set and whose
    date has arrived as out of stock. */
module StockSchedule {
  import opened PhpString
  import opened CalendarDate

  type ProductId = nat

  /** WooCommerce's stock statuses. */
  datatype StockStatus = InStock | OutOfStock | OnBackorder

  /** One product as the plugin sees it: its two metadata values as
      `get_post_meta(id, key, true)` reads them back (always a string, and
      "" when the key was never written) and its stock status. */
  datatype Product = Product(date: string, flag: string, status: StockStatus)

  /** The test in `woo-out-of-stock.php` at lines 82 and 85: the stored
      date is not empty, the stored flag is truthy, and today is on or after
      the stored date as strings. */
  predicate IsDue(p: Product, today: string)
  {
    !Empty(p.date) && !Empty(p.flag) && AtLeast(today, p.date)
  }

  /** What the loop body does to one product: it may only set the status to
      out of stock, and it keeps the two metadata values. */
  function SweepProduct(p: Product, today: string): (q: Product)
    ensures q.date == p.date && q.flag == p.flag
    ensures q.status == p.status || q.status == OutOfStock
  {
    if IsDue(p, today) then p.(status := OutOfStock) else p
  }

  /** The table once the sweep has visited the products in `ids`, whatever
      the order of the visits. */
  function SweepOver(t: map<ProductId, Product>, ids: set<ProductId>, today: string): (r: map<ProductId, Product>)
    ensures r.Keys == t.Keys
    ensures forall id :: id in t ==> r[id].date == t[id].date && r[id].flag == t[id].flag
    ensures forall id :: id in t ==> r[id].status == t[id].status || r[id].status == OutOfStock
    ensures forall id :: id in t && (id !in ids || Empty(t[id].flag) || Empty(t[id].date)) ==> r[id] == t[id]
    ensures forall id :: id in t && id in ids && !Empty(t[id].flag) && !Empty(t[id].date) ==>
      if AtLeast(today, t[id].date) then r[id].status == OutOfStock else r[id] == t[id]
  {
    map id | id in t :: if id in ids then SweepProduct(t[id], today) else t[id]
  }

  /** A sweep over the whole catalog. */
  function Sweep(t: map<ProductId, Product>, today: string): map<ProductId, Product>
  {
    SweepOver(t, t.Keys, today)
  }

  /** One iteration of the loop in `woo-out-of-stock.php` at line 75, for
      the product `id`. An id with no record reads back empty metadata and
      is skipped. */
  function Visit(t: map<ProductId, Product>, id: ProductId, today: string): map<ProductId, Product>
  {
    if id in t then t[id := SweepProduct(t[id], today)] else t
  }

  /** The table after visiting `ids` one after the other, in that order. */
  function SweepSequence(t: map<ProductId, Product>, ids: seq<ProductId>, today: string): map<ProductId, Product>
  {
    if ids == [] then t
    else Visit(SweepSequence(t, ids[..|ids| - 1], today), ids[|ids| - 1], today)
  }

  /** The products a listing names. */
  function Listed(ids: seq<ProductId>): set<ProductId>
  {
    set id | id in ids
  }

  /** Visiting the products one by one, in any order and even with repeats,
      ends in the table that depends only on which products were visited. */
  lemma {:induction false} SweepSequenceIsSweepOver(t: map<ProductId, Product>, ids: seq<ProductId>, today: string)
    ensures SweepSequence(t, ids, today) == SweepOver(t, Listed(ids), today)
  {
    if ids == [] {
      assert SweepOver(t, {}, today) == t;
    } else {
      var front, last := ids[..|ids| - 1], ids[|ids| - 1];
      SweepSequenceIsSweepOver(t, front, today);
      var before := Listed(front);
      assert Listed(ids) == before + {last} by {
        assert ids == front + [last];
      }
      var r := SweepOver(t, before, today);
      if last in t && last in before {
        SweepProductIdempotent(t[last], today);
        assert Visit(r, last, today) == r;
      }
    }
  }

  /** Sweeping a product twice on the same day is sweeping it once. */
  lemma SweepProductIdempotent(p: Product, today: string)
    ensures SweepProduct(SweepProduct(p, today), today) == SweepProduct(p, today)
  {
  }

  /** The enumeration order of the catalog has no effect: two orders that
      list the same products, each as often, give the same table. */
  lemma SweepOrderIrrelevant(t: map<ProductId, Product>, order1: seq<ProductId>, order2: seq<ProductId>, today: string)
    requires multiset(order1) == multiset(order2)
    ensures SweepSequence(t, order1, today) == SweepSequence(t, order2, today)
  {
    SweepSequenceIsSweepOver(t, order1, today);
    SweepSequenceIsSweepOver(t, order2, today);
    assert Listed(order1) == Listed(order2) by {
      forall id ensures id in order1 <==> id in order2 {
        assert id in order1 <==> id in multiset(order1);
        assert id in order2 <==> id in multiset(order2);
      }
    }
  }

  /** Running the sweep a second time on the same day, over the same
      listed products, changes nothing. */
  lemma SweepIdempotent(t: map<ProductId, Product>, ids: set<ProductId>, today: string)
    ensures SweepOver(SweepOver(t, ids, today), ids, today) == SweepOver(t, ids, today)
  {
  }

  /** A product that is due on one day is due on every later day, whatever
      its stored date string holds: today's `Y-m-d` string only grows. */
  lemma DueStaysDue(p: Product, earlier: string, later: string)
    requires IsIsoDate(earlier) && IsIsoDate(later)
    requires DayNumber(Parse(earlier)) <= DayNumber(Parse(later))
    requires IsDue(p, earlier)
    ensures IsDue(p, later)
  {
    LexicalIsChronological(later, earlier);
    CompareAntisymmetric(earlier, p.date);
    CompareAntisymmetric(later, earlier);
    CompareTransitive(p.date, earlier, later);
    CompareAntisymmetric(later, p.date);
  }

  /** A late or missed run does not matter: sweeping the same listed
      products on one day and again on a later day gives the table of a
      single sweep on the later day. */
  lemma SweepLaterDay(t: map<ProductId, Product>, ids: set<ProductId>, earlier: string, later: string)
    requires IsIsoDate(earlier) && IsIsoDate(later)
    requires DayNumber(Parse(earlier)) <= DayNumber(Parse(later))
    ensures SweepOver(SweepOver(t, ids, earlier), ids, later) == SweepOver(t, ids, later)
  {
    var early := SweepOver(t, ids, earlier);
    forall id | id in t && id in ids
      ensures SweepOver(early, ids, later)[id] == SweepOver(t, ids, later)[id]
    {
      if IsDue(t[id], earlier) {
        DueStaysDue(t[id], earlier, later);
      }
    }
  }

  /** The help text's promise: with the flag set and a well-formed stored
      date, the product is due exactly from that day on. */
  lemma DueFromStoredDate(p: Product, today: string)
    requires IsIsoDate(p.date) && IsIsoDate(today) && !Empty(p.flag)
    ensures IsDue(p, today) <==> DayNumber(Parse(p.date)) <= DayNumber(Parse(today))
  {
    LexicalIsChronological(today, p.date);
  }

  /** Four concrete products: due on the day itself, not yet due, flag
      unset, and no date; and "0", which PHP reads as empty, in either
      metadata value. */
  lemma SweepExamples()
    ensures SweepProduct(Product("2024-01-01", "1", InStock), "2024-01-01").status == OutOfStock
    ensures SweepProduct(Product("2099-01-01", "1", InStock), "2024-06-01").status == InStock
    ensures SweepProduct(Product("2024-01-01", "0", InStock), "2024-06-01").status == InStock
    ensures SweepProduct(Product("", "1", InStock), "2024-06-01").status == InStock
    ensures SweepProduct(Product("0", "1", InStock), "2024-06-01").status == InStock
    ensures SweepProduct(Product("2024-01-01", "", OnBackorder), "2024-06-01").status == OnBackorder
  {
  }

  /** A stored date with a five-digit year is due at once: its first
      character '1' sorts before the '2' of every date since the year 2000,
      though the day it names lies thousands of years ahead. */
  lemma FiveDigitYearDueAtOnce()
    ensures SweepProduct(Product("10000-01-01", "1", InStock), "2026-10-19").status == OutOfStock
  {
    assert Compare("2026-10-19", "10000-01-01") == 1;
  }

  /** Names of the form fields the save handler reads. */
  const NonceField := "custom_stock_management_nonce"
  const CheckboxField := "custom_stock_management_auto_out_of_stock"
  const DateField := "custom_stock_management_date"

  /** The guard in `woo-out-of-stock.php` at line 46: the nonce field is
      present and `verifyNonce` (standing for `wp_verify_nonce` with the
      form's action) accepts it. */
  predicate NonceAccepted(form: map<string, string>, verifyNonce: string -> bool)
  {
    NonceField in form && verifyNonce(form[NonceField])
  }

  /** The record the save handler leaves behind. Without an accepted nonce
      it is the old record; with one, the flag says whether the checkbox
      was sent and the date is the sanitized field, or "" when it was not
      sent. The stock status is never touched. */
  function Saved(p: Product, form: map<string, string>, verifyNonce: string -> bool, sanitize: string -> string): (q: Product)
    ensures q.status == p.status
    ensures !NonceAccepted(form, verifyNonce) ==> q == p
    ensures NonceAccepted(form, verifyNonce) ==> (q.flag == "1" || q.flag == "0")
    ensures NonceAccepted(form, verifyNonce) ==> (!Empty(q.flag) <==> CheckboxField in form)
    ensures NonceAccepted(form, verifyNonce) && DateField in form ==> q.date == sanitize(form[DateField])
    ensures NonceAccepted(form, verifyNonce) && DateField !in form ==> q.date == ""
  {
    if !NonceAccepted(form, verifyNonce) then p
    else
      p.(flag := if CheckboxField in form then "1" else "0",
         date := if DateField in form then sanitize(form[DateField]) else "")
  }

  /** Saving the same form twice is saving it once. */
  lemma SavedIdempotent(p: Product, form: map<string, string>, verifyNonce: string -> bool, sanitize: string -> string)
    ensures Saved(Saved(p, form, verifyNonce, sanitize), form, verifyNonce, sanitize) == Saved(p, form, verifyNonce, sanitize)
  {
  }

  /** A schedule saved with the checkbox ticked and a well-formed date is
      carried out by the sweep from that day on; before it, the status is
      left as it was. */
  lemma SavedScheduleIsKept(p: Product, form: map<string, string>, verifyNonce: string -> bool,
                            sanitize: string -> string, today: string)
    requires NonceAccepted(form, verifyNonce) && CheckboxField in form && DateField in form
    requires IsIsoDate(sanitize(form[DateField])) && IsIsoDate(today)
    ensures SweepProduct(Saved(p, form, verifyNonce, sanitize), today).status
      == if DayNumber(Parse(sanitize(form[DateField]))) <= DayNumber(Parse(today)) then OutOfStock else p.status
  {
    DueFromStoredDate(Saved(p, form, verifyNonce, sanitize), today);
  }

  /** A form saved with the checkbox unticked switches the schedule off:
      no sweep on any day changes the product. */
  lemma SavedUncheckedIsInert(p: Product, form: map<string, string>, verifyNonce: string -> bool,
                              sanitize: string -> string, today: string)
    requires NonceAccepted(form, verifyNonce) && CheckboxField !in form
    ensures SweepProduct(Saved(p, form, verifyNonce, sanitize), today) == Saved(p, form, verifyNonce, sanitize)
  {
  }

  /** The catalog and its product metadata as the host stores them. */
  class ProductStore {
    var records: map<ProductId, Product>

    constructor (records: map<ProductId, Product>)
      ensures this.records == records
    {
      this.records := records;
    }

    /** `update_post_meta` of the flag. A post that is not a product has no
        record here: the sweep never reads its metadata. */
    method SetFlag(id: ProductId, flag: string)
      modifies this
      ensures records == if id in old(records) then old(records)[id := old(records)[id].(flag := flag)] else old(records)
    {
      if id in records {
        records := records[id := records[id].(flag := flag)];
      }
    }

    /** `update_post_meta` of the date, as `SetFlag`. */
    method SetDate(id: ProductId, date: string)
      modifies this
      ensures records == if id in old(records) then old(records)[id := old(records)[id].(date := date)] else old(records)
    {
      if id in records {
        records := records[id := records[id].(date := date)];
      }
    }

    /** The save handler: return early unless the nonce is present and
        verifies, then write the flag, then write the date. Only the
        record of `id` can change. */
    method SaveMetabox(id: ProductId, form: map<string, string>, verifyNonce: string -> bool, sanitize: string -> string)
      modifies this
      ensures records == if id in old(records) then old(records)[id := Saved(old(records)[id], form, verifyNonce, sanitize)] else old(records)
      ensures forall other :: other in old(records) && other != id ==> other in records && records[other] == old(records)[other]
    {
      if NonceField !in form || !verifyNonce(form[NonceField]) {
        return;
      }
      var flag := if CheckboxField in form then "1" else "0";
      SetFlag(id, flag);
      var date := if DateField in form then sanitize(form[DateField]) else "";
      SetDate(id, date);
    }

    /** The daily check: visit the products in the order `order` in which
        the product query lists them, and mark each one that is due as out
        of stock. `today` is the value of `date('Y-m-d')`. The result
        depends only on which products were listed, not on their order, and
        a complete listing gives the whole-catalog sweep. */
    method CheckStockStatus(order: seq<ProductId>, today: string)
      modifies this
      ensures records == SweepSequence(old(records), order, today)
      ensures records == SweepOver(old(records), Listed(order), today)
      ensures (forall id :: id in old(records) ==> id in order) ==> records == Sweep(old(records), today)
    {
      var i := 0;
      while i < |order|
        invariant 0 <= i <= |order|
        invariant records == SweepSequence(old(records), order[..i], today)
      {
        assert order[..i + 1][..i] == order[..i];
        var id := order[i];
        var date := if id in records then records[id].date else "";
        var flag := if id in records then records[id].flag else "";
        if !Empty(date) && !Empty(flag) {
          if AtLeast(today, date) {
            records := records[id := records[id].(status := OutOfStock)];
          }
        }
        i := i + 1;
      }
      assert order[..|order|] == order;
      SweepSequenceIsSweepOver(old(records), order, today);
    }
  }
}
