# Customer management: validators and payment ledger

A Dafny model of the two pieces of the customer management application that
carry real rules:

- the input validators and the sanitiser of `utils.py`: customer-id shape,
  phone shape after separators are removed, name character set and length,
  non-negative amount, whitespace trim with a 500-character cap, and calendar
  date validity as `datetime.strptime(s, "%Y-%m-%d")` decides it;
- the ledger handlers of `app.py`: `create_customer`, `update_amount` and
  `delete_customer`, as transitions of the `customer` collection, abstracted
  as a map from the `Id` field to an immutable `Customer` record.

Layout:

- `wrappers.dfy`, module `Wrappers`: `Option`, for a Python call that either
  yields a value or raises.
- `text.dfy`, module `Text`: Python's `str.isspace()` class (which is also
  what `\s` matches and what `str.strip()` removes), `strip()`, slicing,
  `re.sub` of a character class, and `re.match` of `^X$`, whose `$` also
  matches just before a final newline.
- `validators.dfy`, module `Validators`: `validate_phone`,
  `validate_customer_id`, `validate_amount`, `validate_name` and
  `sanitize_input`.
- `dates.dfy`, module `Dates`: `validate_date`. It has the three directives
  of `%Y-%m-%d` as CPython's `_strptime` matches them, and then the
  proleptic Gregorian calendar that `datetime` checks.
- `ledger.dfy`, module `Ledger`: the collection, the three handlers, a
  corrected payment rule, and sequences of requests under either payment
  rule.

Amounts are Dafny `real`s, not IEEE doubles. The balance is a number in the
model, although `app.py` stores it as text (the raw form text at creation,
`str(updated_balance)` after a payment). Python's `float(str(x)) == x`
round-trip makes this abstraction harmless for balances the handlers wrote
themselves. `validate_amount` receives the outcome of `float()` rather than
the text: no value when `float()` raises `ValueError` or `TypeError` (the two
exceptions `validate_amount` catches), or a finite number, an infinity or
NaN.

The handlers in `app.py` call none of the validators of `utils.py`. The model
follows the code: `CreateCustomer` stores whatever it is given, and
`UpdateAmount` accepts any payment, negative ones included. The payment rule
with validation in front (`ApplyPayment`) is the corrected version listed
under Findings.

## Model

| member | source | states |
|---|---|---|
| Validators.ValidatePhone | utils.py:10-20 | Empty input fails. Otherwise whitespace, `-`, `(` and `)` are removed and the rest must be an optional `+` then 10 to 15 ASCII digits. The contract states that the verdict is exactly that shape of the cleaned text: the empty guard and the newline tolerance of `$` never decide it, because cleaning removes every newline. |
| Text.MatchesToEnd | utils.py:19 | `re.match` of `^X$`: whatever `X` accepts matches, and on text that does not end in a newline nothing else does. |
| Text.MatchesToEndNewline | utils.py:19 | Text ending in a newline matches exactly when `X` accepts it whole or accepts it without that final newline. This is the tolerance of `$`. |
| Validators.PhoneDependsOnlyOnCleaned | utils.py:16-20 | Two inputs that clean to the same text get the same verdict. |
| Validators.PhoneSeparatorInsertion | utils.py:16-20 | Inserting a whitespace, `-`, `(` or `)` character at any position never changes the verdict. |
| Validators.PhoneDigitCount | utils.py:19-20 | A run of ASCII digits passes, with or without a leading `+`, exactly when it has 10 to 15 digits, so 9 and 16 fail. |
| Text.RemoveAll | utils.py:16 | The `re.sub` removal leaves no character of the class and keeps every other character as often as it occurs in the input. The result is no longer than the input, and text with no class character comes back unchanged. |
| Text.RemoveAllSingle | utils.py:16 | A single character is deleted when it is in the class and kept otherwise. Together with `RemoveAllConcat`, this fixes the result on every text: the characters outside the class, in their original order. |
| Text.RemoveAllConcat | utils.py:16 | Removal from a concatenation is the concatenation of the removals. |
| Validators.ValidateCustomerId | utils.py:23-29 | As written: every 3 to 20 identifier characters pass. Whatever passes has 3 to 21 characters, all identifier characters except possibly the last. If it does not end in a newline, it is 3 to 20 identifier characters. |
| Validators.ValidateCustomerIdStrict | utils.py:28-29 | The intended check: whatever it accepts, the written check accepts too, and it never ends in a newline. |
| Validators.CustomerIdWithoutNewline | utils.py:23-29 | On input that does not end in a newline, `validate_customer_id` passes exactly when the input has 3 to 20 characters from `A-Z`, `a-z`, `0-9`, `_` or `-`. Empty input fails. |
| Validators.CustomerIdLengthBounds | utils.py:28-29 | An identifier made of allowed characters passes exactly when its length is 3 to 20. So 2 and 21 fail, and 3 and 20 pass. |
| Validators.CustomerIdTrailingNewline | utils.py:28-29 | As written, a text followed by one newline passes exactly when the text alone is a valid identifier. The intended check refuses every such string. |
| Validators.CustomerIdNewlineWitness | utils.py:28-29 | `"abc\n"` passes the check as written and fails the intended one. |
| Validators.CustomerIdStrictAgrees | utils.py:23-29 | The intended check accepts exactly what the written one accepts, minus the strings ending in a newline. |
| Validators.ValidateAmount | utils.py:32-40 | An amount passes exactly when `float()` produced a value and Python's `value >= 0` holds for it. That comparison is stated on its own, with NaN comparing false and the infinities beyond every finite value. |
| Validators.AmountAcceptsNonNegative | utils.py:32-40 | `validate_amount` passes exactly when `float()` produced a number that is at least 0: a finite value of 0 or more, or positive infinity. Text that does not parse fails, NaN fails, negatives fail and 0 passes. |
| Validators.ValidateName | utils.py:43-51 | Whatever passes has 2 to 100 characters, each an ASCII letter, whitespace, `.`, `-` or `'`, even through the newline tolerance of `$`. |
| Validators.NameCharacterisation | utils.py:43-51 | `validate_name` passes exactly when the name has 2 to 100 characters, each an ASCII letter, whitespace, `.`, `-` or `'`. |
| Validators.IdAndNameExamples | utils.py:23-51 | `C001` passes the identifier check, `C1` fails it, and `Asha Rao` passes the name check. |
| Validators.SanitizeInput | utils.py:54-61 | The result has at most 500 characters and no leading whitespace. It is a prefix of the stripped text and a contiguous slice of the input, starting at its first non-whitespace character. It equals the stripped text when that fits in 500 characters, and is empty for empty input. |
| Validators.SanitizeEmptyIffBlank | utils.py:58-61 | Sanitising gives the empty string exactly when the input is all whitespace. |
| Validators.SanitizeIdempotentWhenShort | utils.py:61 | When the stripped text fits in 500 characters, sanitising twice is the same as sanitising once. |
| Validators.SanitizeNotIdempotent | utils.py:61 | Sanitising is not idempotent in general. When the 500-character cut lands just after a space, a second pass strips that space. |
| Text.Prefix | utils.py:61 | Python's `[:n]`: the first `n` characters, or the whole text when it is shorter. |
| Text.Strip | utils.py:61 | `strip()` returns the slice from the first to the last non-whitespace character. It has no whitespace at either end, and every non-whitespace character of the input lies inside the slice. |
| Dates.DaysInMonth | utils.py:85 | Month lengths are 28 to 31 days. February has 29 days exactly in a leap year, meaning divisible by 4 and not by 100 unless by 400. |
| Dates.YearValue | utils.py:85 | `%Y` reads four digits as a year from 0 to 9999, whose zero-padded spelling is those digits. |
| Dates.MonthToken | utils.py:85 | `%m` reads a month from 1 to 12, and what it consumed is one of the written forms of that month. |
| Dates.DayToken | utils.py:85 | `%d` reads a day from 1 to 31, and what it consumed is one of the written forms of that day. |
| Dates.ParseDate | utils.py:85 | What `strptime` reads with `%Y-%m-%d`: a year of 0 to 9999, a month of 1 to 12 and a day of 1 to 31, from a text of 8 to 10 characters with `-` in position 4. Its exact reach is stated by `ParseWritten` and `ParseSound`. |
| Dates.ParseWritten | utils.py:85 | Every written form of a date (four-digit year, one- or two-digit month, two-digit or one-digit or space-padded day) is read as that date. |
| Dates.ParseSound | utils.py:85 | Whatever `strptime` reads, the input is one of the written forms of the date it read. |
| Dates.ValidateDate | utils.py:77-88 | Whatever passes is a written form of the date `strptime` read, and that date is a real calendar day. Every written form of a real calendar day passes. |
| Dates.ValidateDateCharacterisation | utils.py:77-88 | `validate_date` accepts exactly the written forms of real calendar days with year 1 to 9999. |
| Dates.ParseIsoDate | utils.py:85 | On the strict `YYYY-MM-DD` form with any two-digit month and day, the date is read exactly when the month is 01 to 12 and the day is 01 to 31. |
| Dates.ValidateIsoDate | utils.py:77-88 | On the strict form, `validate_date` passes exactly when the year is at least 1, the month is 1 to 12 and the day lies within that month. |
| Dates.LeapDay | utils.py:85-88 | February 29 passes exactly in leap years. |
| Dates.DateExamples | utils.py:77-88 | `2024-02-30`, `2024-99-99`, `2024-13-01` and `0000-01-01` fail. |
| Dates.LeapDayExamples | utils.py:85-88 | `2024-02-29` and `2000-02-29` pass, `2023-02-29` and `1900-02-29` fail, and `2024-01-15` passes. |
| Ledger.CreateCustomer | app.py:30-45 | An existing `Id` leaves the collection unchanged and reports a duplicate. A fresh `Id` adds exactly one record under that key, equal to the form's fields, and changes no other key. Records stay keyed by their `Id`. |
| Ledger.CreateThenDelete | app.py:35-45 | Creating a fresh customer and then deleting it restores the collection. |
| Ledger.UpdateAmount | app.py:60-77 | The update is refused exactly when the balance minus the payment would be negative, and a refusal leaves the collection unchanged. An accepted update sets `Amount_Received` to old plus payment and `Balance_Amount` to old minus payment, which is at least 0. It changes no other field and no other record. |
| Ledger.ExactSettlement | app.py:68-77 | A payment equal to the balance is accepted, because the guard is strict, and leaves the balance at 0. |
| Ledger.UpdateConservesTotal | app.py:65-66 | An update never changes the sum of amount received and balance. |
| Ledger.PaymentsCompose | app.py:65-77 | Two accepted payments in a row have the same effect as one accepted payment of their sum. |
| Ledger.NegativePaymentAccepted | app.py:62-77 | As written, a negative payment that does not make the balance negative is accepted, and it can make the amount received negative. |
| Ledger.NegativePaymentWitness | app.py:62-77 | Take a record with 0 received and 0 owed. It accepts a payment of -5, after which -5 has been received and 5 is owed. |
| Ledger.ApplyPayment | app.py:62-77 | Corrected rule: a negative payment is refused as invalid and an overpayment is refused. A refusal changes nothing, and an accepted payment is exactly `update_amount`'s write. |
| Ledger.ApplyPaymentPreservesAmounts | app.py:62-77 | Under the corrected rule, the amount received never decreases, the balance never increases, and no amount becomes negative. |
| Ledger.DeleteCustomer | app.py:86 | The record with that `Id` is removed and every other record is kept. A missing `Id` leaves the collection unchanged. |
| Ledger.DeleteIdempotent | app.py:86 | Deleting twice equals deleting once. |
| Ledger.Step | app.py:18-88 | One request to a handler. A create adds its `Id`, a payment keeps the set of `Id`s, and a delete removes its `Id`. Only a delete removes a record. A payment for a missing `Id` changes nothing. The payment follows either `update_amount` as written or the corrected rule. |
| Ledger.Run | app.py:18-88 | A sequence of requests, one at a time: every `Id` at the end was there at the start or came from a create request. |
| Ledger.StepKeepsKeysAndBalances | app.py:18-88 | Under either payment rule, `update_amount` as written included, one request keeps every record under its own `Id` and every balance non-negative. It needs only that a create carries no negative balance; its amount received may be anything, negative included. |
| Ledger.RunKeepsKeysAndBalances | app.py:18-88 | Under either payment rule, any sequence of requests whose creates carry no negative balance keeps both of those invariants. |
| Ledger.RunAsWrittenBreaksAmounts | app.py:18-77 | With `update_amount` as written, the amounts received do not stay non-negative: creating a customer with 0 received and 0 owed, then paying -5, leaves -5 received. |
| Ledger.StepPreservesInvariants | app.py:18-88 | With the corrected payment rule `ApplyPayment`, one request keeps every record under its own `Id` and keeps both amounts of every record non-negative. |
| Ledger.RunPreservesInvariants | app.py:18-88 | With the corrected payment rule `ApplyPayment`, any sequence of such requests keeps both invariants. |
| Ledger.PaymentScenario | app.py:18-79 | Create a customer with 1000 received and 4000 owed. A payment of 4500 is refused and the balance stays at 4000. A payment of 4000 is accepted, leaving 0 owed and 5000 received. |

## Left out

- Flask routing, templates, `flash`, `redirect`, the GET branches of the handlers, `view_all_customers` (a plain listing of the collection) and `app.run`. These are HTTP and UI plumbing.
- The MongoDB client and collection API. The collection is a map keyed by `Id`. Documents with a repeated `Id` inserted outside `create_customer` cannot be represented.
- The race between `find_one` and `update_one` in `update_amount`, and between `find_one` and `insert_one` in `create_customer`. This is concurrency, which is outside a sequential model.
- `login_required`. It depends on session and cookie state.
- Search and pagination. No handler shown implements them, and `CUSTOMERS_PER_PAGE` in `config.py` is never read.
- `config.py` and `debug.py`. They read environment variables, define constants that the modelled code does not use, and run a one-off migration against a live database.
- Ledger.UpdateAmount: amounts are exact reals. IEEE-754 rounding is not modelled, so `PaymentsCompose` and `UpdateConservesTotal` hold only in exact arithmetic. A NaN or infinite payment (which `float()` accepts, and for which the guard `updated_balance < 0` is false with NaN) is not modelled either.
- Ledger.UpdateAmount takes the payment as a number. The handler raises at `float(request.form['new_amount'])` (app.py:62) on text that is not a number, before any write, so such a request changes nothing.
- Ledger.UpdateAmount requires the `Id` to be present. The handler raises on a missing record before any write. In `Run`, such a payment leaves the collection unchanged.
- Ledger.CreateCustomer takes both amounts as numbers. The handler raises when `float()` rejects `amount_received`. It stores `balance_amount` as raw form text, and text that is not a number makes a later `update_amount` raise at `float()`.
- Ledger.CreateCustomer cannot hold `"nan"`, `"inf"` or `"-inf"`, which `float()` accepts, either as `amount_received` (app.py:25) or as the stored balance text that `update_amount` reads back (app.py:66). With a NaN balance the guard `updated_balance < 0` (app.py:68) is always false, so every later payment on that record is accepted and `"nan"` is written back. The invariant lemmas say nothing about such records.
- Ledger.StepPreservesInvariants and Ledger.RunPreservesInvariants hold for the corrected payment rule only. For `update_amount` as written, the model proves only that records stay keyed by `Id` and balances non-negative (`StepKeepsKeysAndBalances`, `RunKeepsKeysAndBalances`); `RunAsWrittenBreaksAmounts` shows that the amount received can go negative.
- Audit fields (created/updated by and at) are not written by the handlers shown, so they are not modelled.
- Dates.ParseDate reads ASCII digits only. In a `str` pattern, `\d` in `%Y` and `%d` also matches other Unicode decimal digits, which `int()` accepts.
- Validators.ValidateAmount receives the outcome of `float()` rather than the text. The grammar that `float()` accepts is library code and is not modelled. Any other exception from `float()`, such as the `OverflowError` of an integer too large for a float, propagates out of `validate_amount` instead of giving `False`; the model has no such outcome.
- Validators.SanitizeInput takes a string. `sanitize_input(None)` also returns `""`.

## Findings

| source | as written | input that shows it | evidently intended | confidence | as-written member | corrected member |
|---|---|---|---|---|---|---|
| utils.py:28-29 | `re.match` with `$` accepts an identifier followed by one newline | `"abc\n"` | only 3 to 20 identifier characters, the whole string | high (Python `re` semantics of `$`); not executed | Validators.ValidateCustomerId, Validators.CustomerIdNewlineWitness | Validators.ValidateCustomerIdStrict, Validators.CustomerIdStrictAgrees |
| app.py:62-77 | a negative payment is applied: it lowers `Amount_Received` and raises the balance | record with 0 received and 0 owed, payment `-5` | payments pass `validate_amount` first, so amounts stay non-negative | medium (intent taken from `validate_amount`'s purpose); not executed | Ledger.UpdateAmount, Ledger.NegativePaymentWitness, Ledger.RunAsWrittenBreaksAmounts | Ledger.ApplyPayment, Ledger.ApplyPaymentPreservesAmounts, Ledger.RunPreservesInvariants |
