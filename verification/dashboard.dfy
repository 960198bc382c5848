/** The list logic of the dashboard page (`app/dashboard/page.tsx`): the 40-second reveal
    countdown, the test that decides which card shows a password, and the guard in front
    of adding a password; and three helpers the page defines but never calls — reordering
    by drag and drop, the site search, and masking by `renderPassword`. */
module Dashboard {

  import opened Results
  import opened Strings

  /** One row of the list. The `Password` interface declares a string `id`, but nothing
      in the page sets it (the database supplies `_id`), so it may be absent. */
  datatype PasswordEntry = PasswordEntry(id: Option<string>, mongoId: string, site: string, password: string,
                                         username: Option<string>)

  /** The part of react-beautiful-dnd's drop result the handler reads. */
  datatype DropResult = DropResult(sourceIndex: int, destination: Option<int>)

  // ---------------------------------------------------------------- reordering

  /** Where `Array.prototype.splice` starts for a given `start` on a list of length n:
      negative values count from the end, and the result is clamped to 0..n. */
  function SpliceStart(n: nat, start: int): (k: nat)
    ensures k <= n
    ensures 0 <= start <= n ==> k == start
  {
    if start < 0 then (if n + start < 0 then 0 else n + start)
    else if start > n then n
    else start
  }

  function RemoveAt<T>(s: seq<T>, i: nat): (r: seq<T>)
    requires i < |s|
    ensures |r| == |s| - 1
    ensures multiset(r) + multiset{s[i]} == multiset(s)
  {
    assert s == s[..i] + [s[i]] + s[i + 1..];
    assert multiset(s) == multiset(s[..i]) + multiset([s[i]]) + multiset(s[i + 1..]);
    s[..i] + s[i + 1..]
  }

  function InsertAt<T>(s: seq<T>, i: nat, x: T): (r: seq<T>)
    requires i <= |s|
    ensures |r| == |s| + 1
    ensures multiset(r) == multiset(s) + multiset{x}
    ensures r[i] == x && RemoveAt(r, i) == s
  {
    assert s == s[..i] + s[i..];
    assert multiset(s) == multiset(s[..i]) + multiset(s[i..]);
    var r := s[..i] + [x] + s[i..];
    assert r[..i] == s[..i] && r[i + 1..] == s[i..];
    r
  }

  /** `handleDragEnd(result)`, defined but never called by the page (it renders no
      drag-and-drop components): no destination leaves the list as it is; otherwise
      `splice(source, 1)` takes the item out and `splice(destination, 0, item)` puts it
      back. The list keeps its length and its items, the moved item lands at the
      destination, and with it removed the rest are in their old order. */
  function Reorder<T>(items: seq<T>, drop: DropResult): (r: seq<T>)
    requires drop.destination.Some? ==> SpliceStart(|items|, drop.sourceIndex) < |items|
    ensures drop.destination.None? ==> r == items
    ensures |r| == |items|
    ensures multiset(r) == multiset(items)
    ensures drop.destination.Some? ==>
      var s := SpliceStart(|items|, drop.sourceIndex);
      var d := SpliceStart(|items| - 1, drop.destination.value);
      r[d] == items[s] && RemoveAt(r, d) == RemoveAt(items, s)
  {
    if drop.destination.None? then items
    else
      var s := SpliceStart(|items|, drop.sourceIndex);
      var rest := RemoveAt(items, s);
      var d := SpliceStart(|rest|, drop.destination.value);
      InsertAt(rest, d, items[s])
  }

  /** Dragging the item back from where it landed to where it came from restores the list. */
  lemma ReorderUndo<T>(items: seq<T>, source: nat, destination: nat)
    requires source < |items| && destination < |items|
    ensures var moved := Reorder(items, DropResult(source, Some(destination)));
      Reorder(moved, DropResult(destination, Some(source))) == items
  {
    var moved := Reorder(items, DropResult(source, Some(destination)));
    var back := Reorder(moved, DropResult(destination, Some(source)));
    assert RemoveAt(back, source) == RemoveAt(items, source);
    assert back[source] == items[source];
    RemoveAtDetermines(back, items, source);
  }

  /** Two lists that agree at i and agree once i is removed are equal. */
  lemma RemoveAtDetermines<T>(a: seq<T>, b: seq<T>, i: nat)
    requires i < |a| && i < |b| && a[i] == b[i] && RemoveAt(a, i) == RemoveAt(b, i)
    ensures a == b
  {
    assert a == a[..i] + [a[i]] + a[i + 1..];
    assert b == b[..i] + [b[i]] + b[i + 1..];
    assert a[..i] == RemoveAt(a, i)[..i] == b[..i];
    assert a[i + 1..] == RemoveAt(a, i)[i..] == b[i + 1..];
  }

  // ---------------------------------------------------------------- search

  /** The search test: the lowercased site includes the lowercased query. */
  predicate Matches(entry: PasswordEntry, query: string) {
    Includes(ToLower(entry.site), ToLower(query))
  }

  /** a is b with some elements left out, the rest in order. */
  predicate IsSubsequence<T(==)>(a: seq<T>, b: seq<T>)
    decreases |b|
  {
    if a == [] then true
    else if b == [] then false
    else (a[0] == b[0] && IsSubsequence(a[1..], b[1..])) || IsSubsequence(a, b[1..])
  }

  /** `filteredPasswords`, computed but never rendered by the page (whose search query
      is never set): the entries that match, in list order, each as often as it occurs
      in the list. */
  function Filter(items: seq<PasswordEntry>, query: string): (r: seq<PasswordEntry>)
    ensures IsSubsequence(r, items)
    ensures forall e :: multiset(r)[e] == if Matches(e, query) then multiset(items)[e] else 0
    ensures forall e :: e in r <==> e in items && Matches(e, query)
  {
    if items == [] then []
    else
      assert items == [items[0]] + items[1..];
      assert multiset(items) == multiset{items[0]} + multiset(items[1..]);
      if Matches(items[0], query) then [items[0]] + Filter(items[1..], query)
      else Filter(items[1..], query)
  }

  /** An empty query keeps every entry. */
  lemma {:induction false} EmptyQueryKeepsAll(items: seq<PasswordEntry>)
    ensures Filter(items, "") == items
  {
    if items != [] {
      assert OccursAt(ToLower(items[0].site), ToLower(""), 0);
      EmptyQueryKeepsAll(items[1..]);
    }
  }

  // ---------------------------------------------------------------- reveal countdown

  const RevealSeconds: int := 40

  /** The password being shown, `viewingPassword`. */
  datatype Viewing = Viewing(id: string, password: string)

  /** The page state the countdown touches: `viewingPassword` and `timeLeft`. */
  datatype RevealState = RevealState(viewing: Option<Viewing>, timeLeft: int)

  /** The `setTimeLeft` updater and whether it hides the password. */
  datatype TickResult = TickResult(timeLeft: int, hide: bool)

  /** One run of the updater: at 1 or below it hides the password and resets to 40,
      otherwise it counts down by one. */
  function Tick(prev: int): (r: TickResult)
    ensures r.hide <==> prev <= 1
    ensures r.hide ==> r.timeLeft == RevealSeconds
    ensures !r.hide ==> r.timeLeft == prev - 1
    ensures 1 <= prev <= RevealSeconds ==> 1 <= r.timeLeft <= RevealSeconds
  {
    if prev <= 1 then TickResult(RevealSeconds, true) else TickResult(prev - 1, false)
  }

  /** A successful `handleViewPassword`: show the password and restart at 40. */
  function Reveal(id: string, password: string): RevealState {
    RevealState(Some(Viewing(id, password)), RevealSeconds)
  }

  /** One second: the interval only runs while a password is shown. */
  function Second(s: RevealState): (t: RevealState)
    ensures s.viewing.None? ==> t == s
    ensures 1 <= s.timeLeft <= RevealSeconds ==> 1 <= t.timeLeft <= RevealSeconds
  {
    if s.viewing.None? then s
    else
      var r := Tick(s.timeLeft);
      RevealState(if r.hide then None else s.viewing, r.timeLeft)
  }

  function Seconds(s: RevealState, n: nat): RevealState
    decreases n
  {
    if n == 0 then s else Seconds(Second(s), n - 1)
  }

  /** With t seconds left, the password stays shown for t - 1 more seconds and is hidden
      at the t-th, with the counter back at 40. */
  lemma {:induction false} CountdownFrom(v: Viewing, t: int, n: nat)
    requires 1 <= t <= RevealSeconds && n <= t
    ensures Seconds(RevealState(Some(v), t), n)
      == if n < t then RevealState(Some(v), t - n) else RevealState(None, RevealSeconds)
  {
    if n > 0 {
      if t == 1 {
        assert Second(RevealState(Some(v), t)) == RevealState(None, RevealSeconds);
        assert Seconds(RevealState(None, RevealSeconds), n - 1) == RevealState(None, RevealSeconds) by {
          StaysHidden(n - 1);
        }
      } else {
        CountdownFrom(v, t - 1, n - 1);
      }
    }
  }

  lemma {:induction false} StaysHidden(n: nat)
    ensures Seconds(RevealState(None, RevealSeconds), n) == RevealState(None, RevealSeconds)
  {
    if n > 0 {
      StaysHidden(n - 1);
    }
  }

  /** A revealed password is shown for 39 seconds with the counter at 40 - n, and gone
      after 40. */
  lemma RevealExpires(id: string, password: string, n: nat)
    requires n <= RevealSeconds
    ensures n < RevealSeconds ==> Seconds(Reveal(id, password), n).viewing == Some(Viewing(id, password))
    ensures n < RevealSeconds ==> Seconds(Reveal(id, password), n).timeLeft == RevealSeconds - n
    ensures n == RevealSeconds ==> Seconds(Reveal(id, password), n).viewing == None
  {
    CountdownFrom(Viewing(id, password), RevealSeconds, n);
  }

  // ---------------------------------------------------------------- masking

  /** What `renderPassword` returns for a row: `'********'`, or the password and the
      countdown. */
  datatype Rendered = Masked | Shown(password: string, secondsLeft: int)

  /** `renderPassword(entry)`, defined but never called by the page: the password and
      countdown only when a password is being viewed and its id is the entry's. */
  function RenderPassword(viewing: Option<Viewing>, timeLeft: int, entry: PasswordEntry): (r: Rendered)
    ensures r.Shown? <==> viewing.Some? && entry.id == Some(viewing.value.id)
    ensures r.Shown? ==> r.password == viewing.value.password && r.secondsLeft == timeLeft
  {
    if viewing.Some? && entry.id == Some(viewing.value.id) then Shown(viewing.value.password, timeLeft)
    else Masked
  }

  /** `viewingPassword?.id`: undefined when nothing is viewed. */
  function ViewedId(viewing: Option<Viewing>): Option<string> {
    if viewing.Some? then Some(viewing.value.id) else None
  }

  /** `viewingPassword?.password`. */
  function ViewedPassword(viewing: Option<Viewing>): Option<string> {
    if viewing.Some? then Some(viewing.value.password) else None
  }

  /** The block under a card in the list the page renders: absent, or the (possibly
      undefined) password and the countdown. */
  datatype CardBlock = NoBlock | Block(password: Option<string>, secondsLeft: int)

  /** The card list's test `viewingPassword?.id === password.id`: unlike `renderPassword`
      it does not first check that a password is viewed, so with nothing viewed a card
      without an id passes, as `undefined === undefined`. */
  function CardPassword(viewing: Option<Viewing>, timeLeft: int, entry: PasswordEntry): (b: CardBlock)
    ensures b.Block? <==>
      (viewing.Some? && entry.id == Some(viewing.value.id)) || (viewing.None? && entry.id.None?)
    ensures b.Block? ==> b.secondsLeft == timeLeft
    ensures b.Block? && viewing.Some? ==> b.password == Some(viewing.value.password)
    ensures b.Block? && viewing.None? ==> b.password == None
  {
    if ViewedId(viewing) == entry.id then Block(ViewedPassword(viewing), timeLeft) else NoBlock
  }

  /** For every entry with an id the card list and `renderPassword` agree. */
  lemma CardAgreesWithRender(viewing: Option<Viewing>, timeLeft: int, entry: PasswordEntry)
    requires entry.id.Some?
    ensures CardPassword(viewing, timeLeft, entry).Block? <==> RenderPassword(viewing, timeLeft, entry).Shown?
    ensures CardPassword(viewing, timeLeft, entry).Block? ==>
      CardPassword(viewing, timeLeft, entry)
        == Block(Some(RenderPassword(viewing, timeLeft, entry).password), timeLeft)
  {
  }

  /** In a list whose ids are distinct, at most one card shows a password block (at most
      one entry can lack an id). */
  lemma AtMostOneShown(items: seq<PasswordEntry>, viewing: Option<Viewing>, timeLeft: int, i: nat, j: nat)
    requires forall a, b :: 0 <= a < b < |items| ==> items[a].id != items[b].id
    requires i < |items| && j < |items|
    requires CardPassword(viewing, timeLeft, items[i]).Block?
    requires CardPassword(viewing, timeLeft, items[j]).Block?
    ensures i == j
  {
    assert items[i].id == items[j].id;
  }

  /** Forty seconds after a reveal `renderPassword` masks every row, and every card with
      an id shows no password block. */
  lemma AllMaskedAfterExpiry(id: string, password: string, entry: PasswordEntry)
    ensures var s := Seconds(Reveal(id, password), RevealSeconds);
      RenderPassword(s.viewing, s.timeLeft, entry) == Masked
    ensures var s := Seconds(Reveal(id, password), RevealSeconds);
      entry.id.Some? ==> CardPassword(s.viewing, s.timeLeft, entry) == NoBlock
  {
    RevealExpires(id, password, RevealSeconds);
  }

  /** Forty seconds after a reveal, a card without an id shows the password block with
      no password in it and the counter at 40. */
  lemma IdlessCardShowsAfterExpiry(id: string, password: string, entry: PasswordEntry)
    requires entry.id.None?
    ensures var s := Seconds(Reveal(id, password), RevealSeconds);
      CardPassword(s.viewing, s.timeLeft, entry) == Block(None, RevealSeconds)
  {
    CountdownFrom(Viewing(id, password), RevealSeconds, RevealSeconds);
  }

  // ---------------------------------------------------------------- adding

  /** The add form, `newPassword`. */
  datatype NewPassword = NewPassword(site: string, username: string, password: string)

  /** The JSON body posted to `/api/dashboard/add`. */
  datatype AddRequest = AddRequest(site: string, username: string, password: string, masterPassword: string)

  datatype AddOutcome = Refused(message: string) | Send(request: AddRequest)

  const RequiredMessage: string := "Site and password are required"

  /** The guard of `handleAddPassword`: an empty site or password is refused before any
      request; otherwise the form is posted as it stands, with the master password
      (which the guard does not check). */
  function PrepareAdd(form: NewPassword, masterPassword: string): (r: AddOutcome)
    ensures r.Refused? <==> form.site == "" || form.password == ""
    ensures r.Refused? ==> r.message == RequiredMessage
    ensures r.Send? ==> r.request == AddRequest(form.site, form.username, form.password, masterPassword)
  {
    if form.site == "" || form.password == "" then Refused(RequiredMessage)
    else Send(AddRequest(form.site, form.username, form.password, masterPassword))
  }

  /** A request complete enough to store: a site and a password. */
  predicate Complete(request: AddRequest) {
    request.site != "" && request.password != ""
  }

  /** The form a request was made from. */
  function FormOf(request: AddRequest): (form: NewPassword)
    ensures form.site == request.site && form.username == request.username
    ensures form.password == request.password
  {
    NewPassword(request.site, request.username, request.password)
  }

  /** Every request the guard lets through is complete, and is the form it was given. */
  lemma SentRequestsComplete(form: NewPassword, masterPassword: string)
    ensures PrepareAdd(form, masterPassword).Send? ==>
      var request := PrepareAdd(form, masterPassword).request;
      Complete(request) && FormOf(request) == form && request.masterPassword == masterPassword
  {
  }

  /** Conversely, the guard lets through exactly the complete requests, each unchanged:
      posting is the inverse of reading the form back from the request. */
  lemma AddSendsExactlyComplete(request: AddRequest)
    ensures PrepareAdd(FormOf(request), request.masterPassword) == Send(request) <==> Complete(request)
  {
  }
}
