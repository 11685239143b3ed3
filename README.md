# Eurostar Snap ticket checker — verified model

The checker is a script that fetches the fare data for one Eurostar Snap
search (London to Lille, 22 October 2025). It keeps the time slots that
carry a fare, formats one line per such slot under a fixed header, and
emails the result. This project models the decision logic between the
fetch and the SMTP delivery and proves its properties in Dafny:

- `wrappers.dfy`, module `Wrappers`: `Option` and `Result`.
- `pystr.dfy`, module `PyStr`: the Python string operations the script
  relies on. These are `str.split` with a one-character separator (every
  single separator splits, so adjacent separators give empty fields),
  `s.split(' ')[1]` as a partial function, and `sep.join`. `Find`, the
  first-occurrence search `Split` is built on, has `str.find`'s meaning;
  the script itself does not call `str.find`.
- `check_tickets.dfy`, module `CheckTickets`: the parsed time-slot data,
  the availability filter, the slot-line and body formatting, the
  credential guard and `To` header of `send_notification_email`, and one
  run of `check_for_tickets` after the fetch.

Inputs that the script reads from the outside world are parameters. The
list of time slots is the already-decoded `pageProps.outboundTimeSlots`
(a missing path is the empty list, as `.get(..., [])` makes it). The
values of `EMAIL_ADDRESS` and `GMAIL_APP_PASSWORD` are `Option<string>`
arguments. A run ends in an `Outcome`: early return, nothing available,
one message handed to SMTP, an uncaught formatting exception, or the
credential exit. `Notified` holds a single message, so a run notifies at
most once.

JSON members are modelled as `Field<T> = Absent | Null | Present(v)`,
which is what `dict.get` distinguishes:

- an absent member yields the `.get` default;
- a JSON null yields `None`, so a following `.get` or `.split` raises
  `AttributeError`, and a null `displayPrice` is printed as `None`.

`s.split(' ')[1]` fails with `IndexError` when `s` has no space. This
includes the `'N/A'` default for a missing window, `earliest` or
`latest`. It is modelled as a failure, not as the text `N/A`.

Some behaviour of the script is easy to misread, and the model keeps it
as the code has it:

- a slot with a missing window makes the run crash; the script never
  renders `N/A - N/A`;
- the subject is `Eurostar Snap Tickets Available for 22/10!`;
- there is one destination and a single fixed header line, with no
  per-destination "Found N slot(s)" header;
- the price is preceded by the two characters `Â£` (U+00C2 U+00A3);
- a fetch or decode error exits the process (this part is left out, see
  below); no destination is skipped and the run does not continue.

## Model

| member | source | states |
|---|---|---|
| `CheckTickets.Available` | check_tickets.py:60 | the filtered list is no longer than the input, and every kept slot has a non-null fare and comes from the input |
| `CheckTickets.AvailableIsSubsequence` | check_tickets.py:60 | the kept slots occur in the input in the same relative order |
| `CheckTickets.AvailableMembership` | check_tickets.py:60 | a slot is kept exactly when it is in the input and its fare is not None |
| `CheckTickets.AvailableAppend` | check_tickets.py:60 | filtering a concatenation is the concatenation of the filtered parts, so the order of the input is preserved |
| `CheckTickets.AvailableIsIdentity` | check_tickets.py:60 | the filter returns its input unchanged exactly when every slot has a fare |
| `CheckTickets.AvailableEmpty` | check_tickets.py:60-62 | the filtered list is empty exactly when no slot has a fare |
| `PyStr.Find` | check_tickets.py:69-70 | the position found holds the separator and no earlier position does; none is found exactly when the separator does not occur |
| `PyStr.Split` | check_tickets.py:69-70 | `split` always yields at least one field, and no field contains the separator |
| `PyStr.SecondField` | check_tickets.py:69-70 | `split(' ')[1]` fails exactly when there is no space; on success the field has no space and consists of characters of the input |
| `PyStr.SecondFieldIsSplitAtOne` | check_tickets.py:69-70 | the direct definition of `split(' ')[1]` equals indexing the full `split` at 1, and is None when `split` yields one field |
| `PyStr.SecondFieldOfTimestamp` | check_tickets.py:69 | a `"<date> <time>"` stamp without further spaces yields its time part |
| `PyStr.JoinSplit` | check_tickets.py:69-70 | joining the fields of a split with the separator gives back the original string |
| `PyStr.SplitJoin` | check_tickets.py:77 | splitting parts joined by a separator recovers the parts (each but the first behind the separator's trailing text), given the parts hold no separator |
| `PyStr.Join` | check_tickets.py:27 | `sep.join` of no parts is empty, and the joined text starts with the first part |
| `PyStr.JoinLength` | check_tickets.py:77 | the joined text is as long as all parts together plus one separator fewer than there are parts |
| `PyStr.JoinAppend` | check_tickets.py:75-77 | appending one line to a non-empty list lengthens the joined text by the separator and that line |
| `CheckTickets.TimeOf` | check_tickets.py:68-70 | the time is found exactly when the member is a string containing a space, and it equals the second `split(' ')` field; a missing member (the `'N/A'` default) raises IndexError, a null one AttributeError |
| `CheckTickets.SplitTime` | check_tickets.py:69-70 | `split(' ')[1]` raises IndexError exactly when the string has no space, and otherwise returns the second field |
| `CheckTickets.WindowTime` | check_tickets.py:68-70 | a missing window is an empty object, so its time lookup raises IndexError; a null window raises AttributeError; a present window gives the time of its `earliest` or `latest` member |
| `CheckTickets.PriceOf` | check_tickets.py:72-73 | the price lookup raises exactly on a null fare or null prices (AttributeError); a missing fare, `prices` or `displayPrice` gives `N/A`, a null `displayPrice` gives `None`, and a present `displayPrice` is returned as is |
| `CheckTickets.LineTextLayout` | check_tickets.py:75 | the slot line `LineText` holds the earliest time, the latest time and the price at fixed places between the literal parts `  - Window: `, ` - ` and `, Price: Â£`, and its length is 26 plus theirs |
| `CheckTickets.SlotLine` | check_tickets.py:68-75 | a slot line is produced exactly for a formattable slot; a missing window raises IndexError, a null one AttributeError |
| `CheckTickets.SlotLineFirstError` | check_tickets.py:69-73 | for a slot with a window, the exception raised is that of the first lookup to fail: the earliest time, then the latest time, then the price |
| `CheckTickets.SlotLineText` | check_tickets.py:69-75 | a formattable slot's line is `  - Window: e - l, Price: Â£p`, with `e` and `l` the second space-separated fields and `p` equal to `N/A` when the fare, `prices` or `displayPrice` is missing |
| `CheckTickets.SlotLineExample` | check_tickets.py:69-75 | stamps `2025-10-22 09:15` and `2025-10-22 09:45` with price `42` give `  - Window: 09:15 - 09:45, Price: Â£42` |
| `CheckTickets.BodyLines` | check_tickets.py:66-75 | the lines are built exactly when every available slot is formattable; they are the header followed by slot i's line at position i+1; otherwise the error is that of the first slot that fails |
| `CheckTickets.BodyLinesFailureSticks` | check_tickets.py:67-75 | once a slot raises, the slots after it do not change the result |
| `CheckTickets.BuildBodyLines` | check_tickets.py:66-75 | the in-place loop that appends to `body_lines` computes `BodyLines` |
| `CheckTickets.SlotLineSingle` | check_tickets.py:75 | a slot line holds no line break when the slot's strings hold none |
| `CheckTickets.Body` | check_tickets.py:77 | the lines joined with a line break; when no line holds a line break of its own, splitting the body at line breaks gives back the lines |
| `CheckTickets.BodyAppend` | check_tickets.py:75-77 | each line the loop appends extends the body by a line break and that line |
| `CheckTickets.BodyLineCount` | check_tickets.py:66-77 | provided no timestamp or price of an available slot holds a line break, splitting the body at line breaks gives back exactly the header and one line per available slot, one line more than there are available slots |
| `CheckTickets.Addresses` | check_tickets.py:27 | the recipient strings, one per recipient, in order |
| `CheckTickets.PrepareEmail` | check_tickets.py:20-27 | a missing or empty sender or password stops with the credential error before any message exists; otherwise the message has the given subject, body and sender, and `To` is the recipients joined with `", "` |
| `CheckTickets.ToHeaderRecipients` | check_tickets.py:27 | splitting the `To` header at commas recovers the recipients in order, each after the first behind one space |
| `CheckTickets.ExitStatus` | check_tickets.py:20-22 | the process status is 0 exactly for the early return, the no-ticket case and a notification handed to SMTP |
| `CheckTickets.CheckForTickets` | check_tickets.py:56-82 | an empty slot list returns early; no available slot ends with no email; otherwise the body is built and a formatting exception ends the run; missing credentials stop it; and only then is exactly one message, with the fixed subject, the sender as the one recipient and the joined body, requested |

## Left out

- The HTTP request, `raise_for_status` and the exit on a fetch error (check_tickets.py:43-47): network I/O. The decoded slot list is the input instead.
- `response.json()` and the exit on a decode or structure error (check_tickets.py:50-54): foreign library parsing. A missing `pageProps` or `outboundTimeSlots` is the empty list, as `.get(..., [])` makes it; JSON values of other types (a number as `displayPrice`, a non-dict slot) are not modelled, and a price is always a string.
- SMTP connection, login, `sendmail` and the exit on a send failure (check_tickets.py:29-36): network I/O. `Notified` means the message was handed to the SMTP step.
- MIME encoding by `MIMEText` (check_tickets.py:24): a library call. The message is a record of its headers and body.
- Reading `os.environ` (check_tickets.py:13-15): the two values are parameters, and the recipient list is `[EMAIL_ADDRESS]` as the default argument makes it.
- Console output by `print`, and `exit(1)` as process termination: a run yields an `Outcome` value, and `ExitStatus` gives its status.
- The URL constant (check_tickets.py:10): configuration with no logic.
