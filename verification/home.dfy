/**
 * The rules of the home page: normalising the add-route form, logging out,
 * the guards in front of deleting a route and booking a ride, and the split
 * between the administrator's view and everyone else's.
 */
module Home {
  import opened Wrappers
  import opened Text
  import opened Session

  // ---------------------------------------------------------------- add-route form

  /** The add-route form's fields, as the user typed them. */
  datatype RouteForm = RouteForm(
    name: string,
    stops: string,
    peakHours: string,
    demandLevel: string,
    activeShuttles: string)

  /** The record `addRoute` posts; the shuttle count is kept as the text the form held. */
  datatype NewRoute = NewRoute(
    name: string,
    stops: seq<string>,
    peakHours: seq<string>,
    demandLevel: string,
    activeShuttles: string)

  /**
   * `text.split(",").map(piece => piece.trim())`: one entry per comma-separated
   * piece, none holding a comma or starting or ending with whitespace.
   */
  function SplitAndTrim(text: string): (pieces: seq<string>)
    ensures |pieces| == CommaCount(text) + 1
    ensures forall i :: 0 <= i < |pieces| ==> pieces[i] == Trim(SplitOnComma(text)[i])
    ensures forall i :: 0 <= i < |pieces| ==>
      && ',' !in pieces[i]
      && (pieces[i] != [] ==> !IsSpace(pieces[i][0]) && !IsSpace(pieces[i][|pieces[i]| - 1]))
  {
    var parts := SplitOnComma(text);
    seq(|parts|, i requires 0 <= i < |parts| => TrimPiece(parts[i]))
  }

  /** Trimming a comma-free piece leaves it comma-free. */
  function TrimPiece(piece: string): (r: string)
    requires ',' !in piece
    ensures ',' !in r
    ensures r == Trim(piece)
  {
    TrimKeepsOnly(piece, ',');
    Trim(piece)
  }

  /** An empty field, or one holding only whitespace, gives a single empty entry. */
  lemma SplitAndTrimBlank(text: string)
    requires forall k :: 0 <= k < |text| ==> IsSpace(text[k])
    ensures SplitAndTrim(text) == [""]
  {
    NoCommaInBlank(text);
    assert SplitOnComma(text) == [text] by {
      SplitJoin([text]);
    }
    assert LeadingSpaces(text) == |text|;
  }

  lemma {:induction false} NoCommaInBlank(text: string)
    requires forall k :: 0 <= k < |text| ==> IsSpace(text[k])
    ensures ',' !in text && CommaCount(text) == 0
  {
    if text != [] {
      NoCommaInBlank(text[1..]);
      assert text == [text[0]] + text[1..];
    }
  }

  /**
   * `addRoute`'s normalisation: stops and peak hours are split on commas and
   * trimmed by the same rule; name and demand level are trimmed only, so by
   * `TrimKeepsCommas` the name keeps every comma the user typed.
   */
  function ProcessForm(form: RouteForm): (r: NewRoute)
    ensures r.stops == SplitAndTrim(form.stops)
    ensures r.peakHours == SplitAndTrim(form.peakHours)
    ensures r.name == Trim(form.name) && r.demandLevel == Trim(form.demandLevel)
    ensures r.activeShuttles == form.activeShuttles
  {
    NewRoute(
      Trim(form.name),
      SplitAndTrim(form.stops),
      SplitAndTrim(form.peakHours),
      Trim(form.demandLevel),
      form.activeShuttles)
  }

  /** Trimming removes whitespace only, so no comma is lost. */
  lemma TrimKeepsCommas(s: string)
    ensures CommaCount(Trim(s)) == CommaCount(s)
  {
    var r := Trim(s);
    var i := LeadingSpaces(s);
    var front, back := s[..i], s[i + |r|..];
    assert s == front + r + back;
    NoCommaInBlank(front);
    NoCommaInBlank(back);
    CommaCountAppend(front, r);
    CommaCountAppend(front + r, back);
  }

  lemma {:induction false} CommaCountAppend(a: string, b: string)
    ensures CommaCount(a + b) == CommaCount(a) + CommaCount(b)
  {
    if a == [] {
      assert a + b == b;
    } else {
      CommaCountAppend(a[1..], b);
      assert (a + b)[0] == a[0] && (a + b)[1..] == a[1..] + b;
    }
  }

  // ---------------------------------------------------------------- logout

  /** `handleLogout`: forget the signed-in user's name and email and nothing else. */
  method Logout(store: SessionStore)
    modifies store
    ensures store.items == old(store.items) - {UserNameKey, EmailKey}
    ensures UserNameKey !in store.items && EmailKey !in store.items
    ensures forall k :: k != UserNameKey && k != EmailKey ==> store.GetItem(k) == old(store.GetItem(k))
  {
    store.RemoveItem(UserNameKey);
    store.RemoveItem(EmailKey);
  }

  // ---------------------------------------------------------------- delete and book guards

  /** The backend calls the home page can make. */
  datatype Request =
    | DeleteRoute(id: string)                   // DELETE /api/routes/{id}
    | BookRide(email: string, routeId: string)  // POST /api/book-ride

  /** `deleteRoute(id)`: a request only for a truthy id. */
  function DeleteRequest(id: Option<string>): (r: Option<Request>)
    ensures r.None? <==> !Truthy(id)
    ensures r.Some? ==> r.value == DeleteRoute(id.value)
  {
    if Truthy(id) then Some(DeleteRoute(id.value)) else None
  }

  /** The alert shown when booking without a signed-in email. */
  const LoginAlert := "Please log in to book a ride."

  /** What `bookRide` does before any reply: nothing, ask the user to log in, or send a request. */
  datatype BookStep = Ignored | AskLogin(alert: string) | Send(request: Request)

  /**
   * `bookRide(routeId)`'s guards: without a truthy id it does nothing; then,
   * without a truthy stored email, it only alerts; otherwise it posts the
   * stored email with the id.
   */
  method BookRideStep(store: SessionStore, routeId: Option<string>) returns (step: BookStep)
    ensures !Truthy(routeId) ==> step == Ignored
    ensures Truthy(routeId) && !Truthy(store.GetItem(EmailKey)) ==> step == AskLogin(LoginAlert)
    ensures step.Send? <==> Truthy(routeId) && Truthy(store.GetItem(EmailKey))
    ensures step.Send? ==> step.request == BookRide(store.items[EmailKey], routeId.value)
  {
    if !Truthy(routeId) {
      return Ignored;
    }
    var email := store.GetItem(EmailKey);
    if !Truthy(email) {
      return AskLogin(LoginAlert);
    }
    step := Send(BookRide(email.value, routeId.value));
  }

  /** The backend's answer to a booking request; a failed call carries an optional `detail`. */
  datatype BookingReply = Booked(fare: string, newBalance: string) | Rejected(detail: Option<string>)

  /** What the user sees after the reply: an alert, and the new balance when one arrived. */
  datatype BookingFeedback = BookingFeedback(alert: string, balance: Option<string>)

  /**
   * The text before the fare, character for character as app/page.tsx:102
   * holds it: the three characters U+00E2, U+201A and U+00B9 ("â‚¹") stand
   * where the rupee sign U+20B9 was meant, being that sign's UTF-8 bytes read
   * as Windows-1252.
   */
  const FarePrefix: string := "Ride booked successfully! Fare: \U{E2}\U{201A}\U{B9}"

  /**
   * A booked ride reports its fare and shows the new balance; a rejection
   * shows the backend's `detail`, or a fixed message when there is none.
   */
  function BookingResult(reply: BookingReply): (f: BookingFeedback)
    ensures reply.Booked? ==> f == BookingFeedback(FarePrefix + reply.fare, Some(reply.newBalance))
    ensures reply.Rejected? ==> f.balance.None?
    ensures reply.Rejected? && Truthy(reply.detail) ==> f.alert == reply.detail.value
    ensures reply.Rejected? && !Truthy(reply.detail) ==> f.alert == "Error booking ride."
  {
    match reply
    case Booked(fare, balance) => BookingFeedback(FarePrefix + fare, Some(balance))
    case Rejected(detail) => BookingFeedback(if Truthy(detail) then detail.value else "Error booking ride.", None)
  }

  // ---------------------------------------------------------------- admin view

  /** The button each route card carries. */
  datatype CardButton = DeleteButton | BookButton

  /** The role-dependent parts of the page. */
  datatype View = View(title: string, showAddForm: bool, cardButton: CardButton)

  /** The page's `userName`: the stored name when it is truthy. */
  function CurrentUser(store: SessionStore): (user: Option<string>)
    reads store
    ensures user.Some? <==> Truthy(store.GetItem(UserNameKey))
    ensures user.Some? ==> user.value == store.items[UserNameKey]
  {
    var stored := store.GetItem(UserNameKey);
    if Truthy(stored) then stored else None
  }

  /**
   * The administrator, and only the user named exactly "admin", sees the
   * management title, the add-route form and a delete button on each card;
   * everyone else sees the booking title and a book button.
   */
  function PageView(user: Option<string>): (v: View)
    ensures v.showAddForm <==> user == Some("admin")
    ensures v.cardButton == DeleteButton <==> user == Some("admin")
    ensures v.title == if user == Some("admin") then "Manage Shuttle Routes" else "Available Shuttles"
  {
    if user == Some("admin") then View("Manage Shuttle Routes", true, DeleteButton)
    else View("Available Shuttles", false, BookButton)
  }
}
