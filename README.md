# Automatically Out of Stock After Date — a verified model

The plugin lets a merchant pick a date for a WooCommerce product and tick a
checkbox. From that date on, a daily background check marks the product
"out of stock". This project models the two pieces of the plugin that make
decisions, and proves what they promise:

- the **save handler** of the product edit form. It writes the two product
  metadata values, an enable flag and a date, only when the form's nonce is
  present and verifies;
- the **daily stock sweep**. It walks the catalog and sets the stock status
  of every product whose flag is truthy and whose date has arrived to
  `outofstock`.

Three modules, one per file:

- `PhpString` (`php_string.dfy`): PHP's `empty()` and truthiness for
  strings, and PHP's `>=` between two strings that are not both numeric.
  That operator compares byte by byte, as `strcmp` does.
- `CalendarDate` (`calendar_date.dfy`): Gregorian dates and their
  `Y-m-d` form (`YYYY-MM-DD`, the complete extended calendar-date
  representation of section 4.1.2.2 of ISO 8601:2004). `Format` stands for
  `date('Y-m-d')`, and `Parse` reads such a string back. `DayNumber` counts
  days since 0000-01-01. The main result is `LexicalIsChronological`: for
  two well-formed date strings, the string comparison orders them as the
  days they name.
- `StockSchedule` (`stock_schedule.dfy`): the per-product record and the
  due test. It holds the specification functions of the sweep, the lemmas
  about them, and the class `ProductStore`. That class updates the product
  table in place: `CheckStockStatus` is the sweep's loop, and `SaveMetabox`
  makes the save handler's two metadata writes through `SetFlag` and
  `SetDate`.

Modelling choices:

- Metadata values are strings, as `get_post_meta(id, key, true)` returns
  them. A key that was never written reads as `""`. The flag that the
  handler saves as the integer 1 or 0 reads back as `"1"` or `"0"`.
- `wp_verify_nonce` and `sanitize_text_field` are parameters with no
  interpretation (`verifyNonce: string -> bool`, `sanitize: string -> string`).
  The submitted form is a map from field name to value.
- The current date (`date('Y-m-d')`) is the parameter `today`. The order in
  which the product query lists the catalog is the parameter `order`.
- The plugin stores both values as strings. PHP's `empty()` and its
  truthiness both treat `"0"` as empty, in the date and in the flag. Nothing
  validates the date on save: whatever `sanitize_text_field` returns is
  stored, and the model keeps that. `DueFromStoredDate` gives the help
  text's "on this date" promise only for a stored date that is well formed.
  The sweep compares any other stored string byte by byte.

## Model

| member | source | states |
|---|---|---|
| `PhpString.Empty` | woo-out-of-stock.php:82 | Defines `empty($s)` and `!(bool)$s` for a string. They hold exactly for `""` and `"0"` |
| `PhpString.Compare` | woo-out-of-stock.php:85 | The comparison behind `$current_date >= $selected_date` gives -1, 0 or 1, and gives 0 exactly when the two strings are equal |
| `PhpString.AtLeast` | woo-out-of-stock.php:85 | Defines `$a >= $b` on two strings that are not both numeric: the byte-wise comparison is 0 or 1 |
| `PhpString.CompareAntisymmetric` | woo-out-of-stock.php:85 | Swapping the operands flips the comparison's sign |
| `PhpString.CompareTransitive` | woo-out-of-stock.php:85 | String `<=` is transitive |
| `CalendarDate.Decimal` | woo-out-of-stock.php:83 | A number below 10^width, zero-padded to `width` digits as `date` pads fields, spells that number back |
| `CalendarDate.CompareDecimal` | woo-out-of-stock.php:85 | Two digit strings of the same length compare as the numbers they spell |
| `CalendarDate.DayNumberOrder` | woo-out-of-stock.php:32 | Counting days orders two valid dates as year, then month, then day do |
| `CalendarDate.Format` | woo-out-of-stock.php:83 | `date('Y-m-d')` of a valid day is a well-formed date string that parses back to that day |
| `CalendarDate.FormatParse` | woo-out-of-stock.php:83 | A well-formed date string is the `date('Y-m-d')` output of the day it names |
| `CalendarDate.CompareShaped` | woo-out-of-stock.php:85 | Comparing two `YYYY-MM-DD` strings byte by byte compares their year, month and day fields in that order |
| `CalendarDate.LexicalIsChronological` | woo-out-of-stock.php:83-85 | For well-formed dates, the string `>=` holds exactly when the first day is the same as or later than the second |
| `CalendarDate.FormatIsChronological` | woo-out-of-stock.php:83-85 | The clock's `Y-m-d` string is `>=` another day's string exactly when its day is no earlier, and two days give the same string only when they are the same day |
| `StockSchedule.IsDue` | woo-out-of-stock.php:82-85 | Defines the due test: the stored date is not PHP-empty, the stored flag is truthy, and `today >= date` as strings |
| `StockSchedule.SweepProduct` | woo-out-of-stock.php:78-87 | One iteration never touches the date or the flag, and either leaves the status alone or sets it to `outofstock` |
| `StockSchedule.SweepOver` | woo-out-of-stock.php:75-88 | The sweep keeps the catalog's products and never changes a date or a flag. Its only write is `outofstock`, so it never restores stock. It leaves unchanged every product it does not visit and every product whose flag or date is PHP-empty (`""` or `"0"`). A visited product with both values set ends `outofstock` when today `>=` its date, and is unchanged otherwise |
| `StockSchedule.Sweep` | woo-out-of-stock.php:66-92 | Defines the whole-catalog sweep as `SweepOver` of every product in the table |
| `StockSchedule.Visit` | woo-out-of-stock.php:76-87 | Defines one iteration for one listed id: a product with a record goes through `SweepProduct`, and an id with no record leaves the table unchanged |
| `StockSchedule.SweepSequence` | woo-out-of-stock.php:75-89 | Defines the loop as a fold: `Visit` applied to the listed ids one after the other, in the order the query yields them |
| `StockSchedule.SweepProductIdempotent` | woo-out-of-stock.php:86 | Setting an already-due product out of stock again changes nothing |
| `StockSchedule.SweepSequenceIsSweepOver` | woo-out-of-stock.php:75-88 | Visiting products one after another gives the table that depends only on which products were visited, whatever the order and however often |
| `StockSchedule.SweepOrderIrrelevant` | woo-out-of-stock.php:75-88 | Any permutation of the enumeration order gives the same final table |
| `StockSchedule.SweepIdempotent` | woo-out-of-stock.php:66-92 | A second sweep on the same day, over any set of listed products, leaves the table as the first left it |
| `StockSchedule.DueStaysDue` | woo-out-of-stock.php:83-85 | A product that is due on one day is due on every later day, whatever its stored date string |
| `StockSchedule.SweepLaterDay` | woo-out-of-stock.php:66-92 | Sweeping any set of listed products on one day and again on a later day gives the same table as one sweep on the later day, so a late or missed run is harmless |
| `StockSchedule.DueFromStoredDate` | woo-out-of-stock.php:32 | With the flag set and a well-formed stored date, the product is due exactly from that day on ("updated on this date") |
| `StockSchedule.FiveDigitYearDueAtOnce` | woo-out-of-stock.php:82-87 | A stored date of `"10000-01-01"` with the flag set is due on `"2026-10-19"`, because its first byte `'1'` sorts before `'2'` |
| `StockSchedule.SweepExamples` | woo-out-of-stock.php:82-87 | Concrete cases: due on the date itself, not yet due, flag `"0"`, date `""`, date `"0"`, flag `""` |
| `StockSchedule.NonceAccepted` | woo-out-of-stock.php:46 | Defines the save handler's guard: the nonce field was sent and `wp_verify_nonce` accepts it |
| `StockSchedule.Saved` | woo-out-of-stock.php:44-57 | Without a present and verified nonce the record is unchanged. Otherwise the flag is `"1"` or `"0"` and is truthy exactly when the checkbox field was sent. The date is the sanitized field, or `""` when that field was not sent. The stock status is never touched |
| `StockSchedule.SavedIdempotent` | woo-out-of-stock.php:50-56 | Submitting the same form twice has the effect of submitting it once |
| `StockSchedule.SavedScheduleIsKept` | woo-out-of-stock.php:44-57 | After a save with the box ticked and a well-formed date, the sweep sets the product out of stock from that date on, and before it leaves the status as it was |
| `StockSchedule.SavedUncheckedIsInert` | woo-out-of-stock.php:51-52 | After a save with the box unticked, no sweep on any day changes the product |
| `StockSchedule.ProductStore.SetFlag` | woo-out-of-stock.php:52 | Writing the flag changes only that product's flag |
| `StockSchedule.ProductStore.SetDate` | woo-out-of-stock.php:56 | Writing the date changes only that product's date |
| `StockSchedule.ProductStore.SaveMetabox` | woo-out-of-stock.php:44-57 | The table afterwards is the old table with this product's record replaced by `Saved`. No other product's record changes |
| `StockSchedule.ProductStore.CheckStockStatus` | woo-out-of-stock.php:66-92 | The loop leaves the table that visiting the listed products in order gives, which is the order-free `SweepOver` of the listed products. A listing of the whole catalog gives the whole-catalog sweep |

## Left out

- Metabox registration and rendering (woo-out-of-stock.php:10-40) are HTML output with no decisions in them. `wp_nonce_field` belongs to this part.
- The wp-cron registration (woo-out-of-stock.php:60-63) is a check-then-register call to the host scheduler, and the hook wiring is host plumbing. The model does not schedule anything. `SweepLaterDay` covers what a late or missed run means for the table.
- `WP_Query`, `have_posts`, `the_post`, `get_the_ID` and `wp_reset_postdata` become the parameter `order`, the product ids in the order the query yields them. An id with no record is skipped, because its metadata reads back empty.
- `wp_verify_nonce` and `sanitize_text_field` are foreign calls whose bodies are not part of this model. They are opaque parameters.
- `date('Y-m-d')` reads the system clock and timezone. The sweep takes `today` as a parameter and reads it once per run, but the source calls `date` again for each due product. A run that crosses midnight is therefore not modelled. `Format` covers only years 0000 to 9999, which `Y` writes in four digits.
- Side effects of `wc_update_product_stock_status` other than setting the status are host code and are not modelled. Those are hooks, caches and product lookups.
- PHP compares two numeric strings as numbers. The model always compares strings byte by byte. This is exact whenever `today` comes from `date('Y-m-d')`, because a string containing `-` after its digits is never numeric.
- Metadata values that are not strings are not modelled. That covers arrays stored under the same keys, and array or null values in `$_POST`.
- `save_post` fires for every post type. A save on a post that is not a product writes metadata that the sweep never reads, so the model leaves the product table unchanged. The handler's return value (`$post_id` on the early exit) is ignored by the hook and is not modelled.
- Concurrent edits and sweeps (last writer wins at the metadata store) are not modelled.
- PHP compares bytes, and the model compares Dafny characters, which are Unicode code points. The two agree on the UTF-8 encoding of every string, because UTF-8 keeps code-point order and the prefix relation. Byte strings that are not valid UTF-8 are not modelled.
- A stored date with a five-digit year, such as `"10000-01-01"`, is due at once: byte by byte, `'1'` sorts before `'2'` in today's date. An HTML date input accepts such a year. This breaks the help text's "on this date" promise (woo-out-of-stock.php:32), and the model reproduces it (`FiveDigitYearDueAtOnce`). `DueFromStoredDate` promises the day order only for four-digit years.
