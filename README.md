# Contact book, modelled in Dafny

A model of the command-line contact book in `main.py`, with proofs. The book maps
contact names to records. A record holds an ordered list of ten-digit phone numbers and
an optional birthday, kept as the day.month.year text the user typed. The model covers
these parts of the program:

- The two field validators, `Phone` and `Birthday`. The date check is the
  `strptime("%d.%m.%Y")` format, over a Python-style proleptic Gregorian calendar
  (module `Calendar`).
- `Record` (module `Records`) as a class. Its phone operations act on the first exact
  match. Each operation is specified by a function on values (`PhonesAfterAdd`,
  `PhonesAfterRemove`, `PhonesAfterEdit`). Its `__str__` line is `Record.Describe`, built
  from the value function `Summary`.
- `AddressBook` (module `AddressBooks`) as a class. It holds a map from names to
  records, plus the names in dict insertion order.
- The upcoming-birthdays query (module `Birthdays` on values, and
  `AddressBook.GetUpcomingBirthdays` as the loop). Today's date is a parameter.
- The three handlers that change the book: `add_contact`, `change_contact` and
  `add_birthday` (module `Handlers`). Each is a function on values (`...Spec`) and a
  method on the book that is proved to match it.
- Reading a command line, `parse_input` (module `Commands`), over ASCII.

Python exceptions become the `Error` values `ValueError(msg)`, `KeyError(msg)` and
`IndexError`, carrying the program's own message texts. An operation that may raise
returns a `Result`.

On the birthday format, the model follows the code rather than its stated format:

- The error message and the comment at main.py:44 say "DD.MM.YYYY".
- `strptime` also accepts a one-digit day or month ("5.6.2020"), and a day written as a
  space followed by a digit (" 5.06.2020").
- A birthday is stored verbatim, so such texts are stored as typed.
- `FormattedIsCanonical` proves that the two-digit form is the only ten-character
  spelling without a leading space.

## Model

| member | source | states |
|---|---|---|
| Fields.NewPhone | main.py:34-39 | A phone is accepted exactly when it is ten characters, all digits, and is then stored verbatim. Otherwise the result is the "Phone number must contain exactly 10 digits." ValueError. |
| Fields.ParseDate | main.py:46 | A text that `strptime("%d.%m.%Y")` accepts always denotes a valid calendar date, with a year of 1..9999. |
| Fields.NewBirthday | main.py:42-49 | A birthday is accepted exactly when the text parses as a date, and is then stored verbatim. Otherwise the result is the "Invalid date format. Use DD.MM.YYYY" ValueError. |
| Fields.ParseFormatted | main.py:46 | Parsing the day.month.year text that `strftime` writes gives back the same date. |
| Fields.FormattedIsCanonical | main.py:46 | A ten-character accepted text with no leading space is exactly the `strftime` text of its date. |
| Fields.EveryDateIsABirthday | main.py:42-49 | Every real date, written day.month.year, is accepted as a birthday and kept as written. |
| Records.Record.constructor | main.py:54-57 | A new record has the given name, no phones and no birthday. |
| Records.PhonesAfterAdd | main.py:59-60 | A valid phone is appended last, with the earlier phones unchanged. An invalid one gives the phone-format ValueError. |
| Records.Record.AddPhone | main.py:59-60 | The phone list becomes the one `PhonesAfterAdd` describes, or stays as it was on error. The birthday is unchanged. |
| Records.PhonesAfterRemove | main.py:62-68 | Removes exactly the first phone equal to the one given. The phones before and after it keep their order, and the multiset loses one copy. Without a match the result is "Phone not found.". |
| Records.Record.RemovePhone | main.py:62-68 | The search loop removes the phone that `PhonesAfterRemove` names. On error the list is unchanged. |
| Records.PhonesAfterEdit | main.py:70-76 | Replaces the first phone equal to the old one, at the same index, and keeps the length and every other phone. A missing old phone gives "Old phone not found.". An invalid new phone gives the format error. |
| Records.Record.EditPhone | main.py:70-76 | The search loop edits in place as `PhonesAfterEdit` says. The new phone is validated before the assignment, so any error leaves the list unchanged. |
| Records.Record.FindPhone | main.py:78-83 | Returns the matching phone exactly when the list contains it, and nothing otherwise. |
| Records.Record.AddBirthday | main.py:85-86 | Sets the birthday to the text exactly when it is a valid birthday. Otherwise it returns the date-format error and keeps the old birthday. Phones are unchanged. |
| Records.JoinPhonesLayout | main.py:88-91 | In the "; "-joined phone list, phone i occupies characters 12i..12i+10, and separators sit between consecutive phones. |
| Records.JoinPhonesInjective | main.py:88-91 | Two phone lists that print the same are the same list. |
| Records.PhonesTextInjective | main.py:89 | The phones part of the summary ("No phones", or the joined list) determines the phone list. |
| Records.SummaryDeterminesPhones | main.py:88-91 | Two summaries (`Record.Describe`) of the same name and birthday that read the same show the same phones in the same order. |
| AddressBooks.AddressBook.constructor | main.py:95 | A new book is empty. |
| AddressBooks.AddressBook.AddRecord | main.py:96-97 | Files the record under its name. A new name goes last in the order; a replaced name keeps its place. The book stays valid. |
| AddressBooks.AddressBook.Find | main.py:99-100 | Returns the record filed under the name exactly when there is one. |
| AddressBooks.AddressBook.Delete | main.py:102-106 | Removes exactly that name, and every other record and its order stays. A missing name changes nothing and is the "Contact not found." KeyError. |
| AddressBooks.AddressBook.GetUpcomingBirthdays | main.py:108-146 | The loop over the records returns exactly `Upcoming` of the book's entries in record order, including its first error. |
| Calendar.ReplaceYear | main.py:123 | `date.replace(year=y)` succeeds exactly when y is in 1..9999 and the date is not 29 February of a common year. It keeps month and day; otherwise it raises a ValueError. |
| Calendar.BeforeIsOrdinalOrder | main.py:126 | Python's field-by-field date comparison is the order of day numbers. |
| Calendar.NextDay | main.py:137-139 | The day after a date (other than 31.12.9999) is a valid date one day number later. |
| Calendar.WeekdayOfNextDay | main.py:136-139 | The weekday of the next day is one more, modulo 7. |
| Calendar.LastDateIsFriday | main.py:137-139 | 31.12.9999 is a Friday, so moving a weekend date forward never runs past the last date. |
| Birthdays.NextOccurrence | main.py:122-127 | The birthday is moved into today's year, or into the next year when it has already passed. The result keeps month and day and is never before today. |
| Birthdays.NextOccurrenceFails | main.py:123-127 | Moving the birthday fails exactly for 29 February when the target year is common, or when it has passed and year 10000 would be needed. |
| Birthdays.GreetingDate | main.py:133-139 | The greeting date is a weekday (Monday..Friday) 0..2 days after the birthday. A weekday birthday is kept, and a Saturday or Sunday moves to the Monday after it (two days and one day on). |
| Birthdays.GreetCases | main.py:117-144 | A record is greeted exactly when it has a birthday whose next occurrence is 0..days days ahead. It fails exactly when moving its birthday fails. A greeting carries the record's name. |
| Birthdays.GreetingIsOnAWeekdayInWindow | main.py:129-144 | A greeting's date text parses back to a weekday 0..2 days after the occurrence, and the occurrence is 0..days days after today. |
| Birthdays.UpcomingFailsAtFirstFailingEntry | main.py:117-146 | The query fails exactly when some record fails, and with the error of the first failing record. |
| Birthdays.UpcomingInEntryOrder | main.py:117-146 | The greeted records are exactly those in the window, in increasing record order. A successful answer has one greeting per greeted record, in that order. |
| Birthdays.BobIsGreetedOnMonday | main.py:108-146 | With today 10.06.2024 and birthday "15.06.2020", the answer is a greeting for Bob on "17.06.2024". |
| Birthdays.LeapDayBirthdayFailsInCommonYear | main.py:117-127 | Any record whose birthday is on 29 February, whatever its name and birth year, makes the whole query fail in a common year, whoever else is in the book. |
| Commands.ParseInput | main.py:164-168 | A blank line gives the empty command with no arguments. Otherwise the command has the first word's length and no whitespace or capitals, and there is one argument per further word, each a non-empty run without whitespace. |
| Commands.SplitKeepsText | main.py:165 | The words, run together, are the line's non-whitespace characters in order. |
| Commands.SplitJoinSpaced | main.py:165 | Words joined by single spaces split back into the same words. |
| Commands.SplitSpaced | main.py:165 | Words separated by any non-empty runs of whitespace, with any whitespace before and after, split back into the same words: each run is one separator. |
| Commands.ParseSpacedLine | main.py:164-168 | However much whitespace surrounds and separates the words, the line parses to the lower-cased first word and the remaining words. |
| Commands.ParseTypedLine | main.py:164-168 | A typed line parses to its lower-cased first word and the remaining words unchanged. |
| Commands.ParseSkipsLeadingSpace | main.py:165 | Leading whitespace does not change the parse. |
| Commands.LowerIdempotent | main.py:166 | Lower-casing twice is lower-casing once. |
| Commands.ParsedCommandIsLowerCase | main.py:166 | The parsed command is already lower case. |
| Handlers.AddContactSpec | main.py:171-183 | Fewer than two arguments is an IndexError. Otherwise the name is in the book afterwards and every other contact is unchanged. The reply succeeds exactly when the phone is valid ("Contact added." / "Contact updated."); otherwise it is the phone-format error. |
| Handlers.AddContactCounts | main.py:173-183 | An existing name keeps the number of records and gains the phone last. A new name adds exactly one record, which stays, without phones, when the phone is invalid. |
| Handlers.AddContact | main.py:171-183 | On the book in place: the contents and the reply are those of `AddContactSpec`, and a new name is appended to the order. |
| Handlers.AddNewContact | main.py:176-180 | The record is filed before its phone is added, so a rejected phone leaves a new contact with no phones. |
| Handlers.ChangeContactSpec | main.py:186-193 | The reply is an IndexError with fewer than three arguments, and "Contact not found." for a missing name. It succeeds exactly when the name exists, the old phone is among its phones and the new one is valid. On success the named contact's phones become `PhonesAfterEdit` of them, the first old phone replaced by the new one in place. When the name exists but the edit fails, the error is "Old phone not found." if the old phone is absent, and the phone-format error otherwise. Any error leaves the book unchanged, and only the named contact can change. |
| Handlers.ChangeContact | main.py:186-193 | On the book in place: the contents and the reply are those of `ChangeContactSpec`. |
| Handlers.AddBirthdaySpec | main.py:215-222 | The reply is an IndexError with fewer than two arguments, and "Contact not found." for a missing name. It succeeds exactly when the name exists and the text is a date, and then only that contact's birthday is set. Otherwise it is the date-format error and the book is unchanged. |
| Handlers.AddBirthday | main.py:215-222 | On the book in place: the contents and the reply are those of `AddBirthdaySpec`. |

## Left out

- `save_data` / `load_data` (main.py:9-18): file I/O and pickle serialisation.
- `main` and its input/print loop (main.py:249-293): interactive I/O. The dispatch to handlers is not modelled.
- `date.today()` (main.py:115): today's date is a parameter of the birthday query.
- The `input_error` decorator (main.py:150-160), which turns exceptions into reply text. Handlers return the `Error` value instead, so the quotes that `str(KeyError(...))` adds are not modelled.
- `show_phone`, `show_all`, `show_birthday` and `birthdays` (main.py:196-245): read-only commands that format what the model already holds.
- Unicode: `str.isdigit`, `str.lower`, `str.split` and the `\d` of `strptime` are modelled on ASCII only. Non-ASCII digits, capitals and whitespace behave differently in Python; for example, `strptime` accepts a day written with an Arabic-Indic digit, which the model rejects.
- `Fields.FormatDate` writes the year with four digits. The platform's `strftime` may write years below 1000 without zero padding; only such years differ.
- The `OverflowError` that `date + timedelta` can raise past 31.12.9999 is not modelled, because it cannot occur: `Calendar.LastDateIsFriday` shows that no weekend date is the last date.
- Aliasing between the book's records and outside references is not modelled. Handlers reach records only through the book.
