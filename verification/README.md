# NCOM: a verified model

This project models the parts of NCOM where money, stock and time have to come out exactly, and proves what
they promise. Amounts are integers in minor units, ratios are kept as numerator and denominator, colours are
real numbers, instants are integer milliseconds.

| files | what they model |
|---|---|
| `Money`, `Allocation`, `Sorting`, `MoneyStrings` | rounding, tax, largest-remainder allocation, money as text (`src/lib/money.ts`) |
| `Pricing`, `CheapestUnits`, `Reconciliation`, `Charges`, `CartInvariance`, `ShippingRates` | the pricing engine (`src/lib/pricing.ts`) |
| `Calendar`, `DateRange` | reporting windows and their buckets (`src/lib/date-range.ts`) |
| `RateLimit` | the fixed-window limiter as a protocol over a shared key (`src/lib/rate-limit.ts`) |
| `Stock`, `WooStock`, `FakeShops` | holding and releasing stock in the PHP and WooCommerce connectors and in the shop of the end-to-end tests |
| `KeysetPaging` | following cursors through a catalogue that changes between pages |
| `Color`, `Signature` | the picker's colour codecs and the signed header with its three parsers |
| `Options`, `Arith`, `Sums`, `Numerals` | optional values, arithmetic facts, sums, decimal numerals and string splitting |

Code that loops or mutates is a method (of a class where the program has an object) proved equal to a
function; the promises are lemmas about those functions. JavaScript's Date, Array sort, string and number
conversions are modelled by their definitions in ECMA-262, Redis and SQL statements by the effect the
program relies on.

Where a promise does not hold for all inputs, the lemma gives the exact condition:

- `allocate` loses units of a negative amount when no weight is positive and the amount does not divide evenly.
- A percentage above 100 breaks the reconciliation of an order with its lines when both minimums are met, the
  excess over 100 percent of the eligible subtotal is at least half a unit, no ceiling is as low as that
  subtotal, and some line that costs something is not eligible. The validation schema keeps such rates out.
- `list_products` ignores the cursor for a query by ids but still sends one, so following it never gets past
  the first page while more ids match than fit a page.
- `verify_signature` in the PHP connector reads the clock in whole seconds and accepts up to one second more
  than NCOM's own check and the Node connector.
- `this_year` passes the year to Date.UTC, which takes the years 0 to 99 for 1900 to 1999.
- `bucketKeys` misses the last bucket when the window's last instant is on a later day than its start, at an
  earlier time of day and, by months, on the first of a month; and everything beyond 5000 buckets.
- The test shop grants a reserve of a variant it does not know, so its ledger matches its stock only for
  variants of which the ledger held nothing when they were last set.
- The limiter recovers only through one client: a key whose expiry has not been set stays full until the
  client whose INCR was the first sets it, and for one window after that.

Tax is rounded line by line and nothing promises that it survives a rearranged cart. As long as no line is discounted,
reordering keeps it, and splitting a line in two keeps it if and only if the carries of the rates on the line add up
to zero. The carry of a rate compares the two remainders, x = a * bps mod d and y = b * bps mod d with d = 10000
(10000 + bps when prices include tax): it is up(x) + up(y) - up(x + y), where up is 0 below d / 2, 1 from there and
2 from 3 d / 2 on. Once a discount takes something off the lines, reordering can move the tax too.

## Model

| member | source | states |
|---|---|---|
| Money.RoundsToNearest | src/lib/money.ts:141-149 | rounding gives r if and only if r is a nearest integer, a half going away from zero |
| Money.RoundingIsSymmetric | src/lib/money.ts:123-149 | both rates are odd in the amount, so refunds mirror charges |
| Money.RoundedApart | src/lib/money.ts:141-149 | two amounts rounded apart are their sum rounded plus a carry that the two remainders decide: one unit up, one down or none |
| Money.TaxRoundTrip | src/lib/money.ts:123-139 | for every integer net and every rate, the tax backed out of net plus tax is that tax exactly |
| Money.RetaxedNet | src/lib/money.ts:123-139 | for every gross and every rate, re-taxing the net left over misses the tax by at most (20000 + bps) / 20000 units, so by at most one up to 100 percent |
| Money.InclusiveTaxWithinGross | src/lib/money.ts:127-139 | one inclusive rate takes between nothing and the gross |
| Allocation.Allocate | src/lib/money.ts:162-191 | both branches and their loops compute Allocated, for every amount and every list of weights |
| Allocation.Spread | src/lib/money.ts:165-174 | the cyclic loop of the even branch |
| Allocation.GiveLeftover | src/lib/money.ts:176-190 | the loop over the sorted remainders, with its early exit |
| Allocation.AllocatedSum | src/lib/money.ts:151-191 | the parts add up to the amount if and only if there is a positive total weight, a non-negative amount, or a negative amount that divides evenly (with no weights: amount zero) |
| Allocation.NegativeUnitLost | src/lib/money.ts:165-174 | at minus one over two zero weights both parts are zero and the unit is lost |
| Allocation.AllocatedQuota | src/lib/money.ts:176-190 | each part is the floor of its exact share or one more, and less than one unit from the share |
| Allocation.AllocatedAgainstWeights | src/lib/money.ts:176-190 | no part exceeds its weight when the amount is at most the total, every part reaches it when the amount is at least the total, and no part of a non-negative amount is negative |
| Allocation.AllocatedZeroWeight | src/lib/money.ts:176-190 | a zero-weight index gets nothing, whatever the amount |
| Allocation.LargestClaimFirst | src/lib/money.ts:180-188 | a larger fractional claim, or an equal one further to the front, is never passed over |
| Allocation.AllocatedEvenly | src/lib/money.ts:165-174 | without a positive total weight: the exact part of every index, larger ones in front for a non-negative amount, all cut off to whole units for a negative one |
| Allocation.AllocatedOptimal | src/lib/money.ts:176-190 | no other integer split with the same sum has a smaller total absolute deviation from the exact shares |
| Sorting.SortedKeeps | src/lib/money.ts:180-182 | the stable sort keeps the records |
| Sorting.SortedAscending | src/lib/money.ts:180-182 | the stable sort orders them by key |
| Sorting.SortedStable | src/lib/pricing.ts:449 | the stable sort keeps records of equal key in their order |
| MoneyStrings.MoneyRoundTrip | src/lib/money.ts:95-107 | any input that reads, once stripped, like the printed form of an amount is parsed as that amount: every integer, every exponent |
| MoneyStrings.PrintedMoneyParses | src/lib/money.ts:208-215 | the printed form itself parses back, at string level, negative amounts included |
| MoneyStrings.DecorationIgnored | src/lib/money.ts:99-102 | characters other than digits, point and minus change nothing wherever they are inserted |
| MoneyStrings.ParseIsNearest | src/lib/money.ts:95-107 | any readable number is rounded to a nearest minor unit, halves up |
| MoneyStrings.WholeUnits | src/lib/money.ts:95-107 | a whole number of units parses to that many times 1, 100 or 1000 minor units, by the decimals of the currency; no digits at all to 0 |
| MoneyStrings.SpelledIsRead | src/lib/money.ts:99-105 | an optional minus sign, digits and an optional point with digits are read as the digits over a power of ten |
| MoneyStrings.ReadIsSpelled | src/lib/money.ts:99-105 | and nothing else is read, but for no characters at all |
| MoneyStrings.ExponentMeans | src/lib/money.ts:17-50 | which currencies have no decimals, which have three, and two for every other |
| MoneyStrings.PrintedShape | src/lib/money.ts:208-215 | a printed amount is a sign if negative, whole units without a leading zero, and exactly the decimals of its currency |
| Pricing.PriceCart | src/lib/pricing.ts:136-225 | the whole breakdown is Priced(input); the tax total is accumulated over the shipping rates |
| Pricing.AllocateBuyXGetY | src/lib/pricing.ts:425-456 | the loops compute FreeUnits: what the first free units in price order charge back to each line |
| Pricing.ExpandUnits | src/lib/pricing.ts:435-443 | one record per eligible unit, line by line |
| Pricing.ChargeUnits | src/lib/pricing.ts:451-453 | the free units are charged to their lines |
| Pricing.FreeCountMeans | src/lib/pricing.ts:445-448 | the free units are get for every whole group of buy + get |
| CheapestUnits.FreeUnitsAreCheapest | src/lib/pricing.ts:417-456 | the amounts are a choice of that many eligible units the lines really hold, and no other such choice is cheaper |
| CheapestUnits.UnitCount | src/lib/pricing.ts:435-443 | there are as many unit records as eligible units |
| Reconciliation.MaskDropsNothing | src/lib/pricing.ts:407-414 | the mask after allocation never changes a line, and the lines carry exactly the order-level amount |
| Reconciliation.AmountOfDiscount | src/lib/pricing.ts:357-405 | a percentage is the rate's nearest unit unless its ceiling is lower; a fixed amount is itself unless the eligible lines cost less |
| Reconciliation.OutsideGetsNothing | src/lib/pricing.ts:294-322 | gifts, exclusions and lines outside the scope have nothing taken off, for all four discount types |
| Charges.AllOffWhatIsReached | src/lib/pricing.ts:294-322 | 100 percent off without minimums or ceiling takes the whole subtotal of every line that is no gift, not excluded and in scope, for each of the four scopes, and nothing of any other line |
| Charges.AcceptedTakes | src/lib/pricing.ts:247-278 | what each type takes off once accepted: nothing for free shipping, the cheapest reached units for buy X get Y, otherwise the amount allocated over the reached subtotals |
| Charges.RejectionMeans | src/lib/pricing.ts:330-355 | which reason is reported, in the order subtotal, quantity, nothing eligible; and a refused code takes nothing off |
| Reconciliation.DiscountOfLine | src/lib/pricing.ts:368-415 | what a line has taken off is at most its subtotal unless a percentage overshoots, and not negative for a well-formed discount |
| Reconciliation.WellFormedNeverOvershoots | src/lib/pricing.ts:393-405 | rates up to 100 percent and non-negative amounts never take more than the eligible lines cost |
| Reconciliation.OrderReconciles | src/lib/pricing.ts:136-225 | for every cart and every discount: the order total is the line totals plus shipping (plus shipping tax when prices exclude tax) if and only if no percentage overshoots or every line that costs something is eligible |
| Charges.ShippingMeans | src/lib/pricing.ts:149-153 | the chosen rate is charged if and only if some line has to be shipped and no accepted code makes shipping free; otherwise shipping is 0 |
| Charges.ShippingAdds | src/lib/pricing.ts:149-212 | taking the rate away changes only shipping, tax and total: by the price charged and one nearest unit of tax for each rate that applies to shipping, which enter the total when prices exclude tax; by nothing where shipping is free |
| Charges.GoodsOnly | src/lib/pricing.ts:195-212 | without a rate the tax total is that of the lines and the order total what is left after the discount, never below 0, plus that tax when prices exclude it |
| Reconciliation.OvershootsMeans | src/lib/pricing.ts:357-405 | the amount taken exceeds what the eligible lines cost if and only if it is a percentage, both minimums are met, eligible times (bps - 10000) is at least 5000, and no ceiling is as low as the eligible subtotal |
| Reconciliation.OvershootingCart | src/lib/pricing.ts:206-225 | 200 percent off the first of two lines at 100 and 50: the order comes to 0, its lines to 50 |
| Reconciliation.WellFormedLine | src/lib/pricing.ts:158-192 | for a well-formed discount the line clamp never fires |
| Reconciliation.WellFormedOrder | src/lib/pricing.ts:206-225 | for a well-formed discount the order reconciles, its clamp never fires, and the discount total is the sum over the lines |
| Reconciliation.AcceptedIff | src/lib/pricing.ts:330-355 | a discount is accepted if and only if both minimums are met and, unless it is free shipping, some eligible line costs something |
| Reconciliation.TaxOnDiscounted | src/lib/pricing.ts:157-176 | a line has one tax line for each rate that applies to it, in rate order and none other; each is the nearest unit of its rate on subtotal less discount (or of the part of it that is tax), and they make up its tax |
| CartInvariance.SameEvaluation | src/lib/pricing.ts:247-278 | carts with the same line-by-line figures (subtotal, quantity, weight, eligible subtotal, eligible units at each price) get the same amount and the same rejection from every discount |
| CartInvariance.ReorderedCart | src/lib/pricing.ts:136-278 | permuting the lines keeps subtotal, discount total, rejection, shipping and weight, and the order total when prices include tax |
| CartInvariance.SplitLine | src/lib/pricing.ts:136-278 | splitting a line in two with the same attributes keeps subtotal, discount total, rejection, shipping and weight, and the order total when prices include tax |
| CartInvariance.SplitTax | src/lib/pricing.ts:157-225 | with no discount, a rejected one or free shipping, splitting a line moves the tax total by exactly the sum of the carries of the rates that apply to it, so not at all if and only if that sum is zero, and by at most one unit a rate; the order total moves with it when prices exclude tax and not at all when they include it |
| CartInvariance.TaxApart | src/lib/money.ts:123-139 | at one rate, inclusive or not, taxing two amounts apart adds the carry of their remainders to taxing them together |
| CartInvariance.SplitMovesTax | src/lib/pricing.ts:157-225 | with ten percent tax on top, two units at 5 come to 11 on one line and to 12 on two lines |
| CartInvariance.ReorderedTax | src/lib/pricing.ts:157-225 | with no discount, a rejected one or free shipping, permuting the lines keeps the tax total and the order total too |
| CartInvariance.ReorderingMovesTax | src/lib/pricing.ts:157-225 | with one unit off two lines of which one is taxed, the tax total is 0 or 1 depending on which line is first |
| ShippingRates.SelectsFirstCheapest | src/lib/pricing.ts:463-499 | the chosen rate is the first of the cheapest that fit; there is none if and only if nothing fits |
| Calendar.MonthLength | src/lib/date-range.ts:63-69 | months follow each other with their Gregorian lengths from 1 January 1970 on (section 21.4.1 of ECMA-262) |
| Calendar.FirstDayMonotone | src/lib/date-range.ts:63-69 | month starts are strictly increasing |
| Calendar.MonthUnique | src/lib/date-range.ts:180-186 | a day lies in exactly one month |
| DateRange.UtcDate.SetMonth | src/lib/date-range.ts:203-206 | the Date stands in the target month, counted through the years, on the date it had, or as many days into the month after as the target month is too short; the time of day is kept |
| DateRange.StartOfLocalDay | src/lib/date-range.ts:52-56 | the mutated Date ends at local midnight of the day |
| DateRange.StartOfLocalMonth | src/lib/date-range.ts:63-69 | the mutated Date ends at local midnight of the first of the month, any number of months back |
| DateRange.LocalDayMeans | src/lib/date-range.ts:28-56 | local days begin at midnight six hours ahead of UTC |
| DateRange.PresetMeaning | src/lib/date-range.ts:78-147 | each preset holds exactly the local days or months it names, across year boundaries |
| DateRange.ThisYearMeaning | src/lib/date-range.ts:119-125 | this_year holds the year up to today, except that it is empty in the years 0 to 99 |
| DateRange.MisreadYear | src/lib/date-range.ts:119-125 | on 1 January of the year 50 the window of this_year holds no instant |
| DateRange.PresetBounds | src/lib/date-range.ts:78-147 | every finite bound is a local midnight |
| DateRange.PresetHoldsNow | src/lib/date-range.ts:71-147 | now lies in the window if and only if the preset is not yesterday, last_month or a misread year |
| DateRange.MonthsMeet | src/lib/date-range.ts:110-117 | last_month ends exactly where this_month starts |
| DateRange.PeriodsCover | src/lib/date-range.ts:156-165 | every earlier instant lies in some previous period |
| DateRange.PeriodsDisjoint | src/lib/date-range.ts:156-165 | and in no two of them |
| DateRange.NextMonth | src/lib/date-range.ts:204-208 | the month branch of the loop body |
| DateRange.BucketKeys | src/lib/date-range.ts:195-215 | the guarded loop returns the keys of consecutive buckets, one for each cursor before the end, up to 5000 |
| DateRange.CursorCount | src/lib/date-range.ts:195-215 | how many keys: one per bucket touched, less a last one that ends early, at most 5000 |
| DateRange.KeyInjective | src/lib/date-range.ts:179-186 | different buckets print different keys |
| DateRange.KeyNamesBucket | src/lib/date-range.ts:179-186 | every key reads back: year without leading zero, two-digit month from 01, by days two-digit date from 01, and they name the local month or day of the instant |
| DateRange.KeysAscend | src/lib/date-range.ts:195-215 | the keys run through consecutive buckets without gap or repetition |
| DateRange.KeysComplete | src/lib/date-range.ts:195-215 | for any start: the keys are exactly those of the window's instants if and only if the last bucket does not end early and there are at most 5000 |
| DateRange.EndsEarlyMeans | src/lib/date-range.ts:195-215 | the last cursor is past the end if and only if the last instant is on a later day than the start at an earlier time of day and, by months, on the first of a month |
| DateRange.LastDayMissed | src/lib/date-range.ts:195-215 | from noon to one o'clock the next day only the first day has a key |
| DateRange.WindowKeysComplete | src/lib/date-range.ts:173-215 | from a local midnight, with the picked granularity: exactly the keys of the instants if and only if the window spans at most 5000 buckets; by days at most 92, by months only beyond 92 days |
| RateLimit.RunKeeps | src/lib/rate-limit.ts:12-30 | every step of every interleaving keeps the invariant |
| RateLimit.LifetimeBound | src/lib/rate-limit.ts:12-30 | in every run no lifetime of the key admits more than the limit |
| RateLimit.WindowBound | src/lib/rate-limit.ts:12-30 | in every run any half-open interval of 1000 * windowSeconds milliseconds admits at most twice the limit, stopped clients included |
| RateLimit.AdmittedWhileRoom | src/lib/rate-limit.ts:19-31 | a request is counted in if and only if its lifetime has not yet admitted the limit |
| RateLimit.AnswersAreLogged | src/lib/rate-limit.ts:23-31 | allowed answers are exactly admitted requests, once each; a refusal says to wait 1 to windowSeconds seconds |
| RateLimit.RefusalWaits | src/lib/rate-limit.ts:23-29 | a call beyond the limit is refused and told the nearest second of what the key still lives, or the whole window when that is nothing or unknown; any other is allowed |
| RateLimit.StuckForever | src/lib/rate-limit.ts:19-22 | while the client that should set the expiry has not, a full key admits nobody, whatever the others do |
| RateLimit.StuckIsReached | src/lib/rate-limit.ts:15-22 | for every positive limit a run of that many INCRs reaches such a state |
| RateLimit.StuckRecovers | src/lib/rate-limit.ts:19-22 | and when the client does set it, the first request after one more window is admitted |
| RateLimit.Limiter.CheckRateLimit | src/lib/rate-limit.ts:12-31 | an undisturbed call takes the protocol steps in order and answers by the count |
| Stock.StockTable.Take | connectors/php/ncom-connector.php:426-435 | the conditional update and its row count |
| Stock.StockTable.Reserve | connectors/php/ncom-connector.php:414-456 | accepts or rolls back, with the rejected variants in order |
| Stock.StockTable.Release | connectors/php/ncom-connector.php:459-478 | gives every line back |
| Stock.HoldsIffAffordable | connectors/php/ncom-connector.php:421-451 | accepted if and only if every variant exists and is uncounted, backorderable or in stock for the summed quantity, repeated variants included |
| Stock.HoldsIffNothingOversold | connectors/php/ncom-connector.php:421-451 | accepted if and only if every variant exists and no counted variant without backorder would go below zero |
| Stock.OrderOfLinesIrrelevant | connectors/php/ncom-connector.php:431-448 | neither decision nor stock depends on the order of the lines |
| Stock.ReleaseUndoesReserve | connectors/php/ncom-connector.php:458-478 | giving a hold back restores the rows |
| Stock.NextMeans | connectors/php/ncom-connector.php:403-478 | what each event of a run does: a reservation is granted if and only if nothing would be oversold, a return gives the next line of one hold back to its variant and leaves every other row as it is |
| Stock.RunConserves | connectors/php/ncom-connector.php:403-478 | every run of reservations and line-by-line releases keeps stock plus holds |
| Stock.StockConserved | connectors/php/ncom-connector.php:403-478 | over every run a counted variant's stock plus outstanding holds is its initial stock, and never negative without backorder |
| WooStock.WooShop.Reserve | connectors/woocommerce/ncom-connector.php:277-314 | takes line by line, quantities below one as one, and compensates: all or nothing, with one refusal per line that could not be taken, in order |
| WooStock.RefusalMeans | connectors/woocommerce/ncom-connector.php:285-304 | a refusal says its variant is gone, or gives the figure the lines taken before it left, which is too little for the line unless the variant is flagged |
| WooStock.RefusalsOfRejected | connectors/woocommerce/ncom-connector.php:285-304 | the refusals name exactly the lines whose update would match no row |
| WooStock.WooShop.GiveBack | connectors/woocommerce/ncom-connector.php:306-309 | the compensation loop restores the stock |
| WooStock.SameAsTransaction | connectors/woocommerce/ncom-connector.php:277-314 | for positive quantities it decides as the PHP transaction does, unless a product is flagged out of stock by hand, and takes the same stock |
| FakeShops.FakeShop.Add | e2e/support/product-source.ts:250-257 | a known product id is replaced where its first product stands and nothing else moves; a new one goes to the end |
| FakeShops.FakeShop.Reserve | e2e/support/product-source.ts:167-217 | everything or nothing; a refusal changes neither stock nor ledger |
| FakeShops.ShortMeans | e2e/support/product-source.ts:183-203 | a line is short if and only if taking it would leave a counted variant that does not sell on below zero |
| FakeShops.FakeShop.Release | e2e/support/product-source.ts:219-233 | stock back up, movement booked |
| FakeShops.FakeShop.ReservedFor | e2e/support/product-source.ts:272-281 | the accumulating loop over the ledger |
| FakeShops.FindMeans | e2e/support/product-source.ts:259-265 | the variant found is the first with the id in the first product that has one; none if and only if no product has one |
| FakeShops.FindAfterLines | e2e/support/product-source.ts:204-209 | moving lines changes each found counted variant by its summed quantity and nothing else |
| FakeShops.LedgerMatchesStock | e2e/support/product-source.ts:204-281 | from a state and an add that leaves a variant counted, over every run that does not set the variant again (products may be added and replaced freely elsewhere): stock plus ledger is that stock if and only if the ledger held nothing of the variant then |
| FakeShops.LedgerOverRun | e2e/support/product-source.ts:204-281 | over every run from the opening of the shop, re-added products included: a variant counted in the end was last set by some add, and stock plus ledger is the stock it set if and only if the ledger held nothing of the variant then |
| FakeShops.PutKeeps | e2e/support/product-source.ts:250-265 | an add changes which variant is found only by replacing the product that holds it, or by bringing one to a place before it |
| FakeShops.ReservedBeforeAdded | e2e/support/product-source.ts:183-216 | a reserve of an unknown variant is granted and booked, and puts the ledger off |
| FakeShops.ScanShowsAll | e2e/support/product-source.ts:121-140 | while products are only added, following cursors shows everything once, in the order added |
| FakeShops.PageAt | e2e/support/product-source.ts:121-140 | a page is the next limit ids after the cursor, or all that are left, with a cursor to its last id if and only if more follow |
| KeysetPaging.ListProducts | connectors/php/ncom-connector.php:235-286 | the where list and the limit + 1 query give the specified page |
| KeysetPaging.PageHolds | connectors/php/ncom-connector.php:237-285 | from the raw limit: that many wanted rows, or all there are, and a cursor if and only if there are more; below 1 counts as 1, above 100 as 100 |
| KeysetPaging.Execute | connectors/php/ncom-connector.php:270-278 | the first n of the rows that satisfy every clause, in key order |
| KeysetPaging.MatchesMeans | connectors/php/ncom-connector.php:247-263 | the named ids, or what status, search and category leave |
| KeysetPaging.PageIsGapless | connectors/php/ncom-connector.php:264-285 | a page is ascending, no longer than the clamped limit, shows only wanted rows and skips none up to its cursor |
| KeysetPaging.ScanAscends | connectors/php/ncom-connector.php:232-285 | whatever changes between pages, ids come strictly ascending, never twice |
| KeysetPaging.ScanMissesNothing | connectors/php/ncom-connector.php:232-285 | a product that matches in every table of the scan is shown |
| KeysetPaging.ScanShowsMatches | connectors/node/ncom-connector.js:238-260 | every product shown stood on a page whose own table held it, and matched |
| KeysetPaging.ScanAtRest | connectors/node/ncom-connector.js:238-260 | on a table at rest the scan ends and shows exactly the wanted rows in order |
| KeysetPaging.IdQueryFinishes | connectors/php/ncom-connector.php:247-250 | a query by ids ignores the cursor: it ends if and only if the matching rows come to fit a page |
| KeysetPaging.IdQueryAtRest | connectors/php/ncom-connector.php:247-250 | at rest a query by ids takes one page or never ends |
| KeysetPaging.IdQueryLoops | connectors/php/ncom-connector.php:247-250 | two products asked for by id, one to a page: no number of pages finishes |
| Color.ConversionIsExact | src/lib/color.ts:136-185 | RGB to HSV and back is the identity on every real colour in range, before rounding; afterwards each channel is rounded |
| Color.HueIsPeriodic | src/lib/color.ts:163-185 | a hue and the same hue any number of turns further, either way, give the same colour |
| Color.HsvRanges | src/lib/color.ts:20-29 | hue, saturation and value lie in their ranges; no saturation if and only if grey |
| Color.HueNamesLargest | src/lib/color.ts:136-160 | the largest channel is red, green or blue if and only if the hue is within 60 degrees of 0, 120 or 240; a grey has hue 0 |
| Color.HexRoundTrip | src/lib/color.ts:187-202 | printing and parsing gives the clamped, rounded channels, alpha to a 255th, for every real colour |
| Color.ByteIsNearest | src/lib/color.ts:195-201 | a channel becomes a nearest byte, halves up, clamped to 0 and 255 |
| Color.StoredForm | src/lib/color.ts:187-202 | what is stored is a hash and lower-case digits, six if opaque and eight if not |
| Color.DigitsMean | src/lib/color.ts:69-83 | 3, 4, 6 and 8 digits are read and no other number of them; a single digit stands for two of it, and two are sixteen times the first plus the second |
| Color.HexIsRead | src/lib/color.ts:64-69 | digits behind a hash are read whatever white space is around them, and not without the hash |
| Color.StoredColorIsStable | src/lib/color.ts:64-85 | any stored hex string reads the same after it is rewritten, the 3, 4, 6 and 8 digit forms included |
| Color.PickerKeepsColor | src/lib/color.ts:136-206 | byte channels survive the way through HSV unchanged |
| Signature.HeaderReadsBack | src/lib/signature.ts:41-61 | a printed header is split, trimmed and joined back to its timestamp and digest by the JavaScript and the PHP parser |
| Signature.MessageInjective | src/lib/signature.ts:18-38 | the signed message binds timestamp and body: no other pair has the same one |
| Signature.PhpParse | connectors/php/ncom-connector.php:141-147 | the foreach over the pieces |
| Signature.ParsersAgree | src/lib/signature.ts:56-61 | on any pieces that have a sign and no space that only one of them trims, the JavaScript and the PHP parser read the same parts |
| Signature.SignlessPiece | src/lib/signature.ts:56-61 | any piece without a sign leaves its text as a key with an empty value in JavaScript and is skipped in PHP |
| Signature.SignedHeaderAccepted | src/lib/signature.ts:50-74 | for any secrets and bodies: each of the three checks accepts if and only if the digests agree and the clock is close enough |
| Signature.AcceptedByNcom | src/lib/signature.ts:50-74 | any header NCOM accepts carries a t piece within the tolerance and a v1 piece that decodes to the digest of that timestamp and the body |
| Signature.AcceptedByNode | connectors/node/ncom-connector.js:167-202 | any header Node accepts carries a t piece within 300 seconds and a v1 piece that is the digest, and comes with the shop's own key |
| Signature.AcceptedByPhp | connectors/php/ncom-connector.php:131-162 | any header PHP accepts carries a t piece within 300 whole seconds, not zero, and a v1 piece that is the digest, and comes with the shop's own key |
| Signature.NoDigestRefused | src/lib/signature.ts:62-74 | a header without a v1 piece is accepted by none of the three |
| Signature.ConnectorsAgree | connectors/node/ncom-connector.js:167-202 | NCOM and Node agree on every clock; PHP differs exactly in the last second past the limit |
| Signature.LastSecond | connectors/php/ncom-connector.php:151-155 | 300.5 seconds after signing, PHP accepts what NCOM and Node refuse |

## Left out

- IEEE 754: amounts, shares and colour channels are exact, and numerals are not limited to the range a double holds exactly.
- Negative prices, quantities, weights and tax rates of a cart: the validation schemas exclude them.
- The text of rejection messages, `formatMoney`, `formatMoneyAmount` and `formatBucketLabel`: locale formatting.
- Currency codes outside ASCII: upper-casing is modelled for the letters a to z only.
- Signature.SignedHeaderAccepted: timestamps in a header are read when written in digits; other JavaScript and PHP numerals count as unreadable, because NCOM prints digits only.
- The rgb() and hsl() branches of `parseColor`, `isLightColor` and the preview helpers: regular expressions and library functions.
- Dates beyond the range a JavaScript Date can hold, and the parsing of the from and to fields, which enter as a day, as absent or as not a date.
- The limiter's answer when Redis is unreachable, eviction of keys for memory, and `getClientIp`.
- RateLimit.WindowBound: an admission is placed at its INCR; when the caller gets to see the answer depends on the network.
- Stock.StockConserved: the PHP transaction is one atomic step and rows are not added or deleted during a run; units sold or restocked by the merchant himself are not part of it.
- The stock code with SUPPORTS_RESERVE off, which answers 404; the Node connector's reserve and release, whose statements are those of the PHP connector.
- WooStock.WooShop.Reserve: stock calls are plain reads and writes of one integer, the out-of-stock flag is not recomputed from the figure, and runs do not interleave, because the code checks before it decreases.
- FakeShops.FakeShop.Add: handles and the array of variants shared with the caller are not modelled.
- FakeShops.ScanShowsAll: paging without a search text; the test shop's HTTP routing and its list of calls.
- KeysetPaging.ListProducts: LIKE is any predicate on a value and a search text; shaping rows into products is left out, as is the Node connector's limit, which is not clamped from below.
- Server actions, services, React components, storage and HTTP handling: input and output around the modelled code.
