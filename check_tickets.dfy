/**
 * The decision logic of the Eurostar Snap checker (check_tickets.py):
 * which time slots count as available, how the email body is formatted
 * from them, whether a notification is sent, and the checks the email
 * sender makes before it builds the message.
 *
 * The HTTP fetch, JSON decoding and SMTP delivery are not modelled:
 * the already-parsed list of time slots and the values of the two
 * environment variables are the inputs, and the outcome of a run is a
 * value that says what the script would do.
 */
module CheckTickets {
  import opened Wrappers
  import opened PyStr

  // ---------------------------------------------------------------------
  // Data model: the parsed JSON of one time slot
  // ---------------------------------------------------------------------

  /**
   * A JSON object member as dict.get sees it: missing (get returns its
   * default), present with JSON null (get returns None), or present
   * with a value.
   */
  datatype Field<+T> = Absent | Null | Present(value: T)

  datatype Prices = Prices(displayPrice: Field<string>)

  datatype Fare = Fare(prices: Field<Prices>)

  datatype Window = Window(earliest: Field<string>, latest: Field<string>)

  datatype TimeSlot = TimeSlot(departureWindow: Field<Window>, fare: Field<Fare>)

  /** The exceptions formatting a slot can raise; none of them is caught. */
  datatype PyError =
    | IndexError      // the time part of a string without a space
    | AttributeError  // a member lookup or a split on a null value

  /**
   * The first line of every notification body, a single line of text. It
   * is written as four pieces only so that the verifier can reason about
   * its characters (that it holds no line break).
   */
  const Header: string :=
    "Available Eurostar " + "Snap tickets found " + "for London to Lille " + "on 2025-10-22:"

  /** The subject of the notification email. */
  const Subject: string := "Eurostar Snap Tickets Available for 22/10!"

  /** The default dict.get returns for a missing time or price. */
  const Missing: string := "N/A"

  /** The two characters the script writes before the price, U+00C2 U+00A3. */
  const PoundSign: string := "\U{C2}\U{A3}"

  // ---------------------------------------------------------------------
  // The availability filter (line 60)
  // ---------------------------------------------------------------------

  /** A slot is available when its fare member is there and not null. */
  predicate IsAvailable(slot: TimeSlot) {
    slot.fare.Present?
  }

  /** The available slots of the list, in the order of the list. */
  function Available(slots: seq<TimeSlot>): (r: seq<TimeSlot>)
    ensures |r| <= |slots|
    ensures forall k :: 0 <= k < |r| ==> IsAvailable(r[k]) && r[k] in slots
  {
    if slots == [] then []
    else (if IsAvailable(slots[0]) then [slots[0]] else []) + Available(slots[1..])
  }

  /** r occurs in s in order, possibly with gaps. */
  predicate IsSubsequence(r: seq<TimeSlot>, s: seq<TimeSlot>)
    decreases |s|
  {
    r == [] || (s != [] && ((r[0] == s[0] && IsSubsequence(r[1..], s[1..])) || IsSubsequence(r, s[1..])))
  }

  /** The filter keeps the input's relative order. */
  lemma {:induction false} AvailableIsSubsequence(slots: seq<TimeSlot>)
    ensures IsSubsequence(Available(slots), slots)
  {
    if slots != [] {
      AvailableIsSubsequence(slots[1..]);
      if IsAvailable(slots[0]) {
        assert Available(slots) == [slots[0]] + Available(slots[1..]);
        assert Available(slots)[1..] == Available(slots[1..]);
      } else {
        assert Available(slots) == Available(slots[1..]);
      }
    }
  }

  /** A slot is kept exactly when it is in the input and available. */
  lemma {:induction false} AvailableMembership(slots: seq<TimeSlot>, x: TimeSlot)
    ensures x in Available(slots) <==> x in slots && IsAvailable(x)
  {
    if slots != [] {
      AvailableMembership(slots[1..], x);
      assert slots == [slots[0]] + slots[1..];
    }
  }

  /** Filtering a concatenation filters each part: the order of the input is kept. */
  lemma {:induction false} AvailableAppend(a: seq<TimeSlot>, b: seq<TimeSlot>)
    ensures Available(a + b) == Available(a) + Available(b)
  {
    if a != [] {
      assert (a + b)[1..] == a[1..] + b;
      AvailableAppend(a[1..], b);
    } else {
      assert a + b == b;
    }
  }

  /** The filter changes nothing exactly when every slot is available. */
  lemma {:induction false} AvailableIsIdentity(slots: seq<TimeSlot>)
    ensures Available(slots) == slots <==> forall k :: 0 <= k < |slots| ==> IsAvailable(slots[k])
  {
    if slots != [] {
      AvailableIsIdentity(slots[1..]);
      if !IsAvailable(slots[0]) {
        assert |Available(slots)| < |slots|;
      }
    }
  }

  /** Nothing is kept exactly when no slot is available. */
  lemma {:induction false} AvailableEmpty(slots: seq<TimeSlot>)
    ensures Available(slots) == [] <==> forall k :: 0 <= k < |slots| ==> !IsAvailable(slots[k])
  {
    if slots != [] {
      AvailableEmpty(slots[1..]);
      assert forall k :: 1 <= k < |slots| ==> slots[k] == slots[1..][k - 1];
    }
  }

  // ---------------------------------------------------------------------
  // Formatting one slot (lines 68-75)
  // ---------------------------------------------------------------------

  /**
   * The time part of one window member: a missing member takes the
   * default "N/A", which has no space and so no time part; a null member
   * cannot be split.
   */
  function TimeOf(f: Field<string>): (r: Result<string, PyError>)
    ensures r.Success? <==> f.Present? && ' ' in f.value
    ensures r == Failure(AttributeError) <==> f.Null?
    ensures f.Absent? ==> r == Failure(IndexError)
    ensures r.Success? ==> Split(f.value, ' ')[1] == r.value
  {
    match f
    case Absent => SplitTime(Missing)
    case Null => Failure(AttributeError)
    case Present(s) => SplitTime(s)
  }

  /** split(' ')[1] on a string, with the IndexError Python raises as a Failure. */
  function SplitTime(s: string): (r: Result<string, PyError>)
    ensures r.Success? <==> ' ' in s
    ensures r.Failure? ==> r.error == IndexError
    ensures r.Success? ==> Split(s, ' ')[1] == r.value
  {
    SecondFieldIsSplitAtOne(s, ' ');
    match SecondField(s, ' ')
    case None => Failure(IndexError)
    case Some(t) => Success(t)
  }

  /**
   * The time shown for one end of the departure window: a missing window
   * is read as an empty object, whose members take the default; a null
   * window cannot be looked into.
   */
  function WindowTime(w: Field<Window>, latest: bool): (r: Result<string, PyError>)
    ensures w.Absent? ==> r == Failure(IndexError)
    ensures w.Null? ==> r == Failure(AttributeError)
    ensures w.Present? ==> r == TimeOf(if latest then w.value.latest else w.value.earliest)
  {
    match w
    case Absent => TimeOf(Absent)
    case Null => Failure(AttributeError)
    case Present(win) => TimeOf(if latest then win.latest else win.earliest)
  }

  /**
   * The price text of a slot: a missing fare, prices or displayPrice
   * member takes the default "N/A"; a null fare or null prices cannot be
   * looked into; a null displayPrice is rendered as "None".
   */
  function PriceOf(fare: Field<Fare>): (r: Result<string, PyError>)
    ensures r.Failure? <==> fare.Null? || (fare.Present? && fare.value.prices.Null?)
    ensures r.Failure? ==> r.error == AttributeError
    ensures fare.Absent? ==> r == Success(Missing)
    ensures fare.Present? && fare.value.prices.Absent? ==> r == Success(Missing)
    ensures fare.Present? && fare.value.prices.Present? && fare.value.prices.value.displayPrice.Absent?
      ==> r == Success(Missing)
    ensures fare.Present? && fare.value.prices.Present? && fare.value.prices.value.displayPrice.Null?
      ==> r == Success("None")
    ensures fare.Present? && fare.value.prices.Present? && fare.value.prices.value.displayPrice.Present?
      ==> r == Success(fare.value.prices.value.displayPrice.value)
  {
    match fare
    case Absent => Success(Missing)
    case Null => Failure(AttributeError)
    case Present(f) =>
      match f.prices
      case Absent => Success(Missing)
      case Null => Failure(AttributeError)
      case Present(p) =>
        match p.displayPrice
        case Absent => Success(Missing)
        case Null => Success("None")
        case Present(s) => Success(s)
  }

  /** A member that holds a timestamp with a space, so that it has a time part. */
  predicate HasTime(f: Field<string>) {
    f.Present? && ' ' in f.value
  }

  /** The slots the loop body formats without raising. */
  predicate Formattable(slot: TimeSlot) {
    && slot.departureWindow.Present?
    && HasTime(slot.departureWindow.value.earliest)
    && HasTime(slot.departureWindow.value.latest)
    && !slot.fare.Null?
    && (slot.fare.Present? ==> !slot.fare.value.prices.Null?)
  }

  /** The line of a formattable slot, from its earliest time, latest time and price. */
  function LineText(earliest: string, latest: string, price: string): string
  {
    "  - Window: " + earliest + " - " + latest + ", Price: " + PoundSign + price
  }

  /**
   * A slot line holds the earliest time, the latest time and the price,
   * each at a fixed place between the literal parts, so each can be read
   * back from the line.
   */
  lemma LineTextLayout(earliest: string, latest: string, price: string)
    ensures var r := LineText(earliest, latest, price);
      && |r| == 26 + |earliest| + |latest| + |price|
      && r[..12] == "  - Window: "
      && r[12..12 + |earliest|] == earliest
      && r[12 + |earliest|..15 + |earliest|] == " - "
      && r[15 + |earliest|..15 + |earliest| + |latest|] == latest
      && r[15 + |earliest| + |latest|..26 + |earliest| + |latest|] == ", Price: " + PoundSign
      && r[26 + |earliest| + |latest|..] == price
  {
  }

  /**
   * The line appended for one slot, or the exception its evaluation
   * raises first (earliest, then latest, then the price).
   */
  function SlotLine(slot: TimeSlot): (r: Result<string, PyError>)
    ensures r.Success? <==> Formattable(slot)
    ensures slot.departureWindow.Absent? ==> r == Failure(IndexError)
    ensures slot.departureWindow.Null? ==> r == Failure(AttributeError)
  {
    match WindowTime(slot.departureWindow, false)
    case Failure(e) => Failure(e)
    case Success(earliest) =>
      match WindowTime(slot.departureWindow, true)
      case Failure(e) => Failure(e)
      case Success(latest) =>
        match PriceOf(slot.fare)
        case Failure(e) => Failure(e)
        case Success(price) => Success(LineText(earliest, latest, price))
  }

  /**
   * The exception a slot raises is that of the first lookup to fail: the
   * earliest time, then the latest time, then the price.
   */
  lemma SlotLineFirstError(slot: TimeSlot)
    requires slot.departureWindow.Present?
    ensures !HasTime(slot.departureWindow.value.earliest)
      ==> SlotLine(slot) == TimeOf(slot.departureWindow.value.earliest)
    ensures HasTime(slot.departureWindow.value.earliest) && !HasTime(slot.departureWindow.value.latest)
      ==> SlotLine(slot) == TimeOf(slot.departureWindow.value.latest)
    ensures HasTime(slot.departureWindow.value.earliest) && HasTime(slot.departureWindow.value.latest)
      && PriceOf(slot.fare).Failure?
      ==> SlotLine(slot) == Failure(PriceOf(slot.fare).error)
  {
  }

  /**
   * The line of a formattable slot shows the second space-separated
   * field of each timestamp and the price, or "N/A" for a missing price.
   */
  lemma SlotLineText(slot: TimeSlot)
    requires Formattable(slot)
    ensures SlotLine(slot) == Success(LineText(
      Split(slot.departureWindow.value.earliest.value, ' ')[1],
      Split(slot.departureWindow.value.latest.value, ' ')[1],
      PriceOf(slot.fare).value))
    ensures slot.fare.Absent? || slot.fare.value.prices.Absent?
      || (slot.fare.value.prices.Present? && slot.fare.value.prices.value.displayPrice.Absent?)
      ==> PriceOf(slot.fare).value == Missing
  {
  }

  /** The example of a formatted slot: timestamps "2025-10-22 09:15" and "2025-10-22 09:45", price "42". */
  lemma SlotLineExample()
    ensures SlotLine(TimeSlot(
        Present(Window(Present("2025-10-22 09:15"), Present("2025-10-22 09:45"))),
        Present(Fare(Present(Prices(Present("42")))))))
      == Success("  - Window: 09:15 - 09:45, Price: \U{C2}\U{A3}42")
  {
    ExampleStamps();
    TimestampExample("2025-10-22", "09:15", "2025-10-22 09:15");
    TimestampExample("2025-10-22", "09:45", "2025-10-22 09:45");
    LineTextExample();
  }

  /** The line of the example slot, once its parts are known. */
  lemma LineTextExample()
    ensures LineText("09:15", "09:45", "42") == "  - Window: 09:15 - 09:45, Price: \U{C2}\U{A3}42"
  {
  }

  /** How the example timestamps are made up. */
  lemma ExampleStamps()
    ensures ' ' !in "2025-10-22" && ' ' !in "09:15" && ' ' !in "09:45"
    ensures "2025-10-22 09:15" == "2025-10-22" + " " + "09:15"
    ensures "2025-10-22 09:45" == "2025-10-22" + " " + "09:45"
  {
  }

  /** The time part of a "<date> <time>" timestamp, as TimeOf reads it. */
  lemma TimestampExample(date: string, time: string, stamp: string)
    requires ' ' !in date && ' ' !in time && stamp == date + " " + time
    ensures TimeOf(Present(stamp)) == Success(time)
  {
    SecondFieldOfTimestamp(date, time);
  }

  // ---------------------------------------------------------------------
  // The body builder (lines 66-77)
  // ---------------------------------------------------------------------

  /**
   * The body lines after the loop has run over all of avail, or the first
   * exception raised in it: the header, then one line per slot in order.
   */
  function BodyLines(avail: seq<TimeSlot>): (r: Result<seq<string>, PyError>)
    ensures r.Success? <==> forall k :: 0 <= k < |avail| ==> Formattable(avail[k])
    ensures r.Success? ==> |r.value| == |avail| + 1 && r.value[0] == Header
    ensures r.Success? ==> forall k :: 0 <= k < |avail| ==> SlotLine(avail[k]) == Success(r.value[k + 1])
    ensures r.Failure? ==>
      exists k :: 0 <= k < |avail| && SlotLine(avail[k]) == Failure(r.error)
                  && forall j :: 0 <= j < k ==> Formattable(avail[j])
    decreases |avail|
  {
    if avail == [] then Success([Header])
    else
      var init := avail[..|avail| - 1];
      assert forall k :: 0 <= k < |init| ==> init[k] == avail[k];
      var last := avail[|avail| - 1];
      match BodyLines(init)
      case Failure(e) => Failure(e)
      case Success(lines) =>
        match SlotLine(last)
        case Failure(e) =>
          assert SlotLine(avail[|init|]) == Failure(e);
          Failure(e)
        case Success(line) =>
          assert Formattable(last);
          Success(lines + [line])
  }

  /** An exception raised for a prefix of the slots ends the loop: later slots do not matter. */
  lemma {:induction false} BodyLinesFailureSticks(avail: seq<TimeSlot>, n: nat)
    requires n <= |avail| && BodyLines(avail[..n]).Failure?
    ensures BodyLines(avail) == BodyLines(avail[..n])
    decreases |avail| - n
  {
    if n < |avail| {
      assert avail[..n + 1][..n] == avail[..n];
      BodyLinesFailureSticks(avail, n + 1);
    } else {
      assert avail[..n] == avail;
    }
  }

  /** The for loop of lines 66-75, appending to body_lines in place. */
  method BuildBodyLines(avail: seq<TimeSlot>) returns (r: Result<seq<string>, PyError>)
    ensures r == BodyLines(avail)
  {
    var bodyLines := [Header];
    for i := 0 to |avail|
      invariant BodyLines(avail[..i]) == Success(bodyLines)
    {
      assert avail[..i + 1][..i] == avail[..i];
      var line := SlotLine(avail[i]);
      if line.Failure? {
        BodyLinesFailureSticks(avail, i + 1);
        return Failure(line.error);
      }
      bodyLines := bodyLines + [line.value];
    }
    assert avail[..|avail|] == avail;
    return Success(bodyLines);
  }

  /**
   * The email body: the lines with a line break between each two. Lines
   * without line breaks of their own can be read back from it.
   */
  function Body(lines: seq<string>): (r: string)
    ensures (|lines| >= 1 && forall k :: 0 <= k < |lines| ==> '\n' !in lines[k]) ==> Split(r, '\n') == lines
  {
    LinesSplitJoin(lines);
    Join(lines, "\n")
  }

  /** Lines without line breaks of their own are recovered by splitting their join. */
  lemma LinesSplitJoin(lines: seq<string>)
    ensures (|lines| >= 1 && forall k :: 0 <= k < |lines| ==> '\n' !in lines[k]) ==> Split(Join(lines, "\n"), '\n') == lines
  {
    if |lines| >= 1 && forall k :: 0 <= k < |lines| ==> '\n' !in lines[k] {
      assert "\n" == ['\n'] + "";
      SplitJoin(lines, '\n', "");
      var parts := Split(Join(lines, "\n"), '\n');
      assert forall k :: 1 <= k < |lines| ==> parts[k] == "" + lines[k];
      assert forall k :: 1 <= k < |lines| ==> "" + lines[k] == lines[k];
    }
  }

  /** Each line the loop appends extends the body by a line break and that line. */
  lemma BodyAppend(lines: seq<string>, line: string)
    requires |lines| >= 1
    ensures Body(lines + [line]) == Body(lines) + "\n" + line
  {
    JoinAppend(lines, line, "\n");
  }

  /**
   * No string of the slot that ends up in its line contains a line break.
   * For the timestamps this asks for the whole string, although only its
   * second space-separated field reaches the line: a sufficient condition,
   * not a necessary one.
   */
  predicate SingleLine(slot: TimeSlot) {
    && (slot.departureWindow.Present? ==>
         && (slot.departureWindow.value.earliest.Present? ==> '\n' !in slot.departureWindow.value.earliest.value)
         && (slot.departureWindow.value.latest.Present? ==> '\n' !in slot.departureWindow.value.latest.value))
    && ((slot.fare.Present? && slot.fare.value.prices.Present? && slot.fare.value.prices.value.displayPrice.Present?)
        ==> '\n' !in slot.fare.value.prices.value.displayPrice.value)
  }

  /** A slot line has no line break when the slot's strings have none. */
  lemma SlotLineSingle(slot: TimeSlot)
    requires Formattable(slot) && SingleLine(slot)
    ensures '\n' !in SlotLine(slot).value
  {
    var w := slot.departureWindow.value;
    var e := SecondField(w.earliest.value, ' ').value;
    var l := SecondField(w.latest.value, ' ').value;
    SecondFieldIsSplitAtOne(w.earliest.value, ' ');
    SecondFieldIsSplitAtOne(w.latest.value, ' ');
    var p := PriceOf(slot.fare).value;
    assert '\n' !in e && '\n' !in l && '\n' !in p;
    LineTextSingle(e, l, p);
    assert SlotLine(slot).value == LineText(e, l, p);
  }

  /** The literal parts of a slot line hold no line break. */
  lemma LineTextSingle(earliest: string, latest: string, price: string)
    requires '\n' !in earliest && '\n' !in latest && '\n' !in price
    ensures '\n' !in LineText(earliest, latest, price)
  {
    assert '\n' !in "  - Window: " && '\n' !in " - " && '\n' !in ", Price: " && '\n' !in PoundSign;
  }

  /**
   * The body has one line for the header and one per available slot:
   * splitting it at line breaks gives back exactly the body lines, provided
   * the slots' own strings hold no line break.
   */
  lemma BodyLineCount(avail: seq<TimeSlot>)
    requires BodyLines(avail).Success?
    requires forall k :: 0 <= k < |avail| ==> SingleLine(avail[k])
    ensures Split(Body(BodyLines(avail).value), '\n') == BodyLines(avail).value
    ensures |Split(Body(BodyLines(avail).value), '\n')| == 1 + |avail|
  {
    var lines := BodyLines(avail).value;
    forall k | 0 <= k < |lines| ensures '\n' !in lines[k] {
      if k > 0 {
        SlotLineSingle(avail[k - 1]);
        assert lines[k] == SlotLine(avail[k - 1]).value;
      } else {
        assert lines[k] == Header;
        assert '\n' !in "Available Eurostar " && '\n' !in "Snap tickets found ";
        assert '\n' !in "for London to Lille " && '\n' !in "on 2025-10-22:";
      }
    }
  }

  // ---------------------------------------------------------------------
  // The email sender's checks (lines 20-27)
  // ---------------------------------------------------------------------

  /** The headers and body of the message handed to the SMTP server. */
  datatype Message = Message(subject: string, sender: string, to: string, body: string)

  /** Why send_notification_email stops before anything is sent. */
  datatype EmailError =
    | MissingCredentials  // line 21-22: message printed, exit(1)
    | RecipientNotString  // joining the recipients fails (TypeError) on a null one

  /** An environment value that Python treats as false: unset or empty. */
  predicate Falsy(x: Option<string>) {
    x.None? || x.value == ""
  }

  /** The recipient addresses, when all are strings. */
  function Addresses(receivers: seq<Option<string>>): (r: seq<string>)
    requires forall k :: 0 <= k < |receivers| ==> receivers[k].Some?
    ensures |r| == |receivers| && forall k :: 0 <= k < |r| ==> receivers[k] == Some(r[k])
  {
    if receivers == [] then [] else [receivers[0].value] + Addresses(receivers[1..])
  }

  /**
   * The checks and header assignments of send_notification_email before
   * the SMTP connection: the credential guard, then To as the
   * comma-joined recipient list.
   */
  function PrepareEmail(subject: string, body: string, sender: Option<string>,
                        receivers: seq<Option<string>>, password: Option<string>): (r: Result<Message, EmailError>)
    ensures r == Failure(MissingCredentials) <==> Falsy(sender) || Falsy(password)
    ensures r.Success? <==> !Falsy(sender) && !Falsy(password) && forall k :: 0 <= k < |receivers| ==> receivers[k].Some?
    ensures r.Success? ==> r.value.subject == subject && r.value.body == body && Some(r.value.sender) == sender
    ensures r.Success? ==> r.value.to == Join(Addresses(receivers), ", ")
  {
    if Falsy(sender) || Falsy(password) then Failure(MissingCredentials)
    else if exists k :: 0 <= k < |receivers| && receivers[k].None? then Failure(RecipientNotString)
    else Success(Message(subject, sender.value, Join(Addresses(receivers), ", "), body))
  }

  /**
   * With addresses free of commas, the To header lists the recipients in
   * order: splitting it at commas gives the first address and then each
   * further one behind the space of the separator.
   */
  lemma ToHeaderRecipients(addresses: seq<string>)
    requires |addresses| >= 1
    requires forall k :: 0 <= k < |addresses| ==> ',' !in addresses[k]
    ensures |Split(Join(addresses, ", "), ',')| == |addresses|
    ensures Split(Join(addresses, ", "), ',')[0] == addresses[0]
    ensures forall k :: 1 <= k < |addresses| ==> Split(Join(addresses, ", "), ',')[k] == " " + addresses[k]
  {
    assert ", " == [','] + " ";
    SplitJoin(addresses, ',', " ");
  }

  // ---------------------------------------------------------------------
  // One run of check_for_tickets (lines 56-82)
  // ---------------------------------------------------------------------

  /** What one run does once the list of time slots is known. */
  datatype Outcome =
    | NoTimeSlots                       // line 56-58: early return
    | NoTicketsAvailable                // line 81-82
    | Notified(message: Message)        // line 80: the one message handed to SMTP
    | FormatCrash(error: PyError)       // an exception from lines 68-73
    | EmailRefused(reason: EmailError)  // send_notification_email exits before sending

  /** The process exit status of the outcome. */
  function ExitStatus(o: Outcome): (code: nat)
    ensures code == 0 <==> o.NoTimeSlots? || o.NoTicketsAvailable? || o.Notified?
  {
    match o
    case NoTimeSlots => 0
    case NoTicketsAvailable => 0
    case Notified(_) => 0
    case FormatCrash(_) => 1
    case EmailRefused(_) => 1
  }

  /**
   * check_for_tickets after the fetch: emailAddress and appPassword are
   * the values of EMAIL_ADDRESS and GMAIL_APP_PASSWORD, and the email is
   * sent with the default arguments, so the one recipient is the sender.
   */
  method CheckForTickets(timeSlots: seq<TimeSlot>, emailAddress: Option<string>, appPassword: Option<string>)
    returns (o: Outcome)
    ensures o == NoTimeSlots <==> timeSlots == []
    ensures o == NoTicketsAvailable <==> timeSlots != [] && Available(timeSlots) == []
    ensures o.FormatCrash? <==> Available(timeSlots) != [] && BodyLines(Available(timeSlots)).Failure?
    ensures o.FormatCrash? ==> o.error == BodyLines(Available(timeSlots)).error
    ensures o.EmailRefused? <==>
      (Available(timeSlots) != [] && BodyLines(Available(timeSlots)).Success?
       && (Falsy(emailAddress) || Falsy(appPassword)))
    ensures o.EmailRefused? ==> o.reason == MissingCredentials
    ensures o.Notified? <==>
      (Available(timeSlots) != [] && BodyLines(Available(timeSlots)).Success?
       && !Falsy(emailAddress) && !Falsy(appPassword))
    ensures o.Notified? ==> o.message == Message(Subject, emailAddress.value, emailAddress.value,
      Body(BodyLines(Available(timeSlots)).value))
  {
    if timeSlots == [] {
      return NoTimeSlots;
    }
    var availableSlots := Available(timeSlots);
    if availableSlots == [] {
      return NoTicketsAvailable;
    }
    var bodyLines := BuildBodyLines(availableSlots);
    if bodyLines.Failure? {
      return FormatCrash(bodyLines.error);
    }
    var emailBody := Body(bodyLines.value);
    var email := PrepareEmail(Subject, emailBody, emailAddress, [emailAddress], appPassword);
    if email.Failure? {
      return EmailRefused(email.error);
    }
    assert Addresses([emailAddress]) == [emailAddress.value];
    return Notified(email.value);
  }
}
