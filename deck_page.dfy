/** The deck list page: the label that tells how long until a deck's next
    review, and the page state (the list of decks, the open options menu, the
    deck selected for a dialog) that the page's handlers update after a
    successful call to the deck service. The service calls themselves are
    parameters: each handler is given the reply the service sent. */
module DeckPage {
  import opened Outcomes
  import opened Time

  /** A deck as the service returns it; `nextReviewAt` is `next_review_at`
      parsed to milliseconds since the epoch. */
  datatype Deck = Deck(
    id: string,
    name: string,
    description: Option<string>,
    isPublic: bool,
    cardsPerSession: int,
    userId: string,
    createdAt: string,
    updatedAt: string,
    nextReviewAt: Option<int>,
    isCustomStudy: Option<bool>,
    sourceDeckId: Option<string>)

  /** The custom study deck the service creates: its id and the number of
      review and new cards it holds for one session. */
  datatype CustomStudyDeck = CustomStudyDeck(id: string, reviewCardsPerSession: int, learnCardsPerSession: int)

  // ---------------------------------------------------------------------
  // The next-review label
  // ---------------------------------------------------------------------

  /** What the label under a deck's name says. */
  datatype ReviewLabel = NoCardsDue | DueNow | InMinutes(minutes: nat) | InHours(hours: nat) | InDays(days: nat)

  /** The label for a deck: none without a date; due now when the date is not
      in the future; otherwise the wait in whole minutes below an hour, in
      whole hours below a day, and in whole days beyond. Every count is
      rounded down. */
  function NextReviewLabel(nextReviewAt: Option<int>, nowMs: int): (tag: ReviewLabel)
    ensures tag.NoCardsDue? <==> nextReviewAt.None?
    ensures tag.DueNow? <==> nextReviewAt.Some? && nextReviewAt.value - nowMs <= 0
    ensures tag.InMinutes? <==> nextReviewAt.Some? && 0 < nextReviewAt.value - nowMs < HourMs
    ensures tag.InHours? <==> nextReviewAt.Some? && HourMs <= nextReviewAt.value - nowMs < DayMs
    ensures tag.InDays? <==> nextReviewAt.Some? && DayMs <= nextReviewAt.value - nowMs
    ensures tag.InMinutes? ==> var diff := nextReviewAt.value - nowMs;
      tag.minutes < 60 && tag.minutes * MinuteMs <= diff < (tag.minutes + 1) * MinuteMs
    ensures tag.InHours? ==> var diff := nextReviewAt.value - nowMs;
      1 <= tag.hours < 24 && tag.hours * HourMs <= diff < (tag.hours + 1) * HourMs
    ensures tag.InDays? ==> var diff := nextReviewAt.value - nowMs;
      1 <= tag.days && tag.days * DayMs <= diff < (tag.days + 1) * DayMs
  {
    match nextReviewAt
    case None => NoCardsDue
    case Some(date) =>
      var diff := date - nowMs;
      if diff <= 0 then DueNow
      else
        var minutes := diff / 60000;
        if minutes < 60 then InMinutes(minutes)
        else
          var hours := minutes / 60;
          if hours < 24 then InHours(hours)
          else
            var days := hours / 24;
            InDays(days)
  }

  /** The character for a digit 0..9. */
  function DigitChar(d: nat): (c: char)
    requires d < 10
    ensures '0' <= c <= '9'
  {
    "0123456789"[d]
  }

  predicate IsDigits(s: string)
  {
    forall i :: 0 <= i < |s| ==> '0' <= s[i] <= '9'
  }

  /** A non-negative integer in decimal, as a template literal prints it:
      no sign and no leading zero. */
  function NatToString(n: nat): (s: string)
    ensures |s| >= 1 && IsDigits(s)
    ensures n > 0 ==> s[0] != '0'
    ensures n < 10 <==> |s| == 1
  {
    if n < 10 then [DigitChar(n)] else NatToString(n / 10) + [DigitChar(n % 10)]
  }

  /** The number a string of decimal digits stands for. */
  function DigitsValue(s: string): nat
    requires IsDigits(s)
  {
    if s == [] then 0 else DigitsValue(s[..|s| - 1]) * 10 + (s[|s| - 1] as int - '0' as int)
  }

  /** Printing a count and reading it back gives the count again. */
  lemma {:induction false} NatToStringRoundTrip(n: nat)
    ensures DigitsValue(NatToString(n)) == n
  {
    var s := NatToString(n);
    if n >= 10 {
      NatToStringRoundTrip(n / 10);
      assert s[..|s| - 1] == NatToString(n / 10);
      assert "0123456789"[n % 10] as int - '0' as int == n % 10;
    } else {
      assert "0123456789"[n] as int - '0' as int == n;
    }
  }

  /** The text of a label as the page shows it. */
  function LabelText(tag: ReviewLabel): (text: string)
    ensures tag.NoCardsDue? <==> text == "No cards due"
    ensures tag.DueNow? <==> text == "Cards due now!"
    ensures !tag.NoCardsDue? && !tag.DueNow? <==> |text| > 15 && text[..15] == "Next review in "
  {
    match tag
    case NoCardsDue => "No cards due"
    case DueNow => "Cards due now!"
    case InMinutes(m) => "Next review in " + NatToString(m) + "m"
    case InHours(h) => "Next review in " + NatToString(h) + "h"
    case InDays(d) => "Next review in " + NatToString(d) + "d"
  }

  /** The printed wait names its count and unit: the part after the prefix is
      the count printed without leading zeros, its digits read back as the
      count, and the last character is the unit. */
  lemma LabelTextWait(tag: ReviewLabel)
    requires tag.InMinutes? || tag.InHours? || tag.InDays?
    ensures var text := LabelText(tag);
      var prefix := "Next review in ";
      var count := if tag.InMinutes? then tag.minutes else if tag.InHours? then tag.hours else tag.days;
      && |text| > |prefix| + 1
      && text[..|prefix|] == prefix
      && text[|prefix|..|text| - 1] == NatToString(count)
      && IsDigits(text[|prefix|..|text| - 1])
      && DigitsValue(text[|prefix|..|text| - 1]) == count
      && text[|text| - 1] == (if tag.InMinutes? then 'm' else if tag.InHours? then 'h' else 'd')
  {
    var prefix := "Next review in ";
    var count := if tag.InMinutes? then tag.minutes else if tag.InHours? then tag.hours else tag.days;
    var text := LabelText(tag);
    assert text[|prefix|..|text| - 1] == NatToString(count);
    NatToStringRoundTrip(count);
  }

  // ---------------------------------------------------------------------
  // List updates
  // ---------------------------------------------------------------------

  /** `[...decks, newDeck]`. */
  function Appended(decks: seq<Deck>, deck: Deck): (r: seq<Deck>)
    ensures |r| == |decks| + 1 && r[..|decks|] == decks && r[|decks|] == deck
  {
    decks + [deck]
  }

  /** `decks.map(d => d.id === id ? updated : d)`. */
  function ReplacedById(decks: seq<Deck>, id: string, updated: Deck): (r: seq<Deck>)
    ensures |r| == |decks|
    ensures forall i :: 0 <= i < |decks| && decks[i].id == id ==> r[i] == updated
    ensures forall i :: 0 <= i < |decks| && decks[i].id != id ==> r[i] == decks[i]
  {
    if decks == [] then []
    else [if decks[0].id == id then updated else decks[0]] + ReplacedById(decks[1..], id, updated)
  }

  /** `decks.filter(d => d.id !== id)`. */
  function RemovedById(decks: seq<Deck>, id: string): (r: seq<Deck>)
    ensures |r| <= |decks|
    ensures forall d :: d in r <==> d in decks && d.id != id
  {
    if decks == [] then []
    else (if decks[0].id == id then [] else [decks[0]]) + RemovedById(decks[1..], id)
  }

  /** The first deck with the given id, as `decks.find` returns it. */
  function FindById(decks: seq<Deck>, id: string): (r: Option<Deck>)
    ensures r.None? <==> forall d :: d in decks ==> d.id != id
    ensures r.Some? ==> r.value.id == id && r.value in decks
  {
    if decks == [] then None
    else if decks[0].id == id then Some(decks[0])
    else FindById(decks[1..], id)
  }

  /** Opening the menu of the deck whose menu is open closes it; any other
      deck's menu replaces whatever menu was open. */
  function Toggled(activeDropdownId: Option<string>, deckId: string): (r: Option<string>)
    ensures r.None? <==> activeDropdownId == Some(deckId)
    ensures r.Some? ==> r.value == deckId
  {
    if activeDropdownId == Some(deckId) then None else Some(deckId)
  }

  /** Removal keeps the order of what remains: it distributes over `+`. */
  lemma {:induction false} RemovedByIdConcat(a: seq<Deck>, b: seq<Deck>, id: string)
    ensures RemovedById(a + b, id) == RemovedById(a, id) + RemovedById(b, id)
  {
    if a == [] {
      assert a + b == b;
    } else {
      assert (a + b)[0] == a[0];
      assert (a + b)[1..] == a[1..] + b;
      RemovedByIdConcat(a[1..], b, id);
      var head := if a[0].id == id then [] else [a[0]];
      assert RemovedById(a + b, id) == head + RemovedById(a[1..] + b, id);
    }
  }

  /** Removal takes away every copy of each deck with the id and no copy of
      any other deck. */
  lemma {:induction false} RemovedByIdMultiplicity(decks: seq<Deck>, id: string, d: Deck)
    ensures multiset(RemovedById(decks, id))[d] == if d.id == id then 0 else multiset(decks)[d]
  {
    if decks != [] {
      RemovedByIdMultiplicity(decks[1..], id, d);
      assert decks == [decks[0]] + decks[1..];
    }
  }

  /** Removing an id no deck has changes nothing. */
  lemma {:induction false} RemovedByAbsentId(decks: seq<Deck>, id: string)
    requires forall d :: d in decks ==> d.id != id
    ensures RemovedById(decks, id) == decks
  {
    if decks != [] {
      RemovedByAbsentId(decks[1..], id);
      assert decks == [decks[0]] + decks[1..];
    }
  }

  /** Deleting a deck that was just created, under an id no other deck has,
      gives back the list from before the creation. */
  lemma CreateThenDelete(decks: seq<Deck>, created: Deck)
    requires forall d :: d in decks ==> d.id != created.id
    ensures RemovedById(Appended(decks, created), created.id) == decks
  {
    RemovedByIdConcat(decks, [created], created.id);
    RemovedByAbsentId(decks, created.id);
  }

  /** When the service returns the deck under its own id, the ids on the page
      stay as they were, a repeated update changes nothing more, and deleting
      afterwards gives the same list as deleting straight away. */
  lemma {:induction false} UpdateKeepsIds(decks: seq<Deck>, id: string, updated: Deck)
    requires updated.id == id
    ensures forall i :: 0 <= i < |decks| ==> ReplacedById(decks, id, updated)[i].id == decks[i].id
    ensures ReplacedById(ReplacedById(decks, id, updated), id, updated) == ReplacedById(decks, id, updated)
    ensures RemovedById(ReplacedById(decks, id, updated), id) == RemovedById(decks, id)
  {
    if decks != [] {
      UpdateKeepsIds(decks[1..], id, updated);
      assert ReplacedById(decks, id, updated)[1..] == ReplacedById(decks[1..], id, updated);
    }
  }

  /** `decks.find` returns the first deck with the id. */
  lemma {:induction false} FindByIdFirst(decks: seq<Deck>, id: string, i: nat)
    requires i < |decks| && decks[i].id == id
    requires forall j :: 0 <= j < i ==> decks[j].id != id
    ensures FindById(decks, id) == Some(decks[i])
  {
    if i > 0 {
      FindByIdFirst(decks[1..], id, i - 1);
    }
  }

  /** Toggling the same deck twice from a closed menu closes it again. */
  lemma ToggleTwice(activeDropdownId: Option<string>, deckId: string)
    requires activeDropdownId.None?
    ensures Toggled(Toggled(activeDropdownId, deckId), deckId).None?
  {
  }

  // ---------------------------------------------------------------------
  // The page state and its handlers
  // ---------------------------------------------------------------------

  class DeckPageState {
    var decks: seq<Deck>
    var activeDropdownId: Option<string>
    var selectedDeck: Option<Deck>
    var isUpdateModalOpen: bool
    var isCustomStudyDialogOpen: bool

    /** The page as it first renders: no decks, no menu, no dialog. */
    constructor ()
      ensures decks == [] && activeDropdownId.None? && selectedDeck.None?
      ensures !isUpdateModalOpen && !isCustomStudyDialogOpen
    {
      decks := [];
      activeDropdownId := None;
      selectedDeck := None;
      isUpdateModalOpen := false;
      isCustomStudyDialogOpen := false;
    }

    /** Loading the signed-in user's decks: a successful reply replaces the
        list; without a user, or on a failed reply, the list stays. */
    method LoadDecks(userSignedIn: bool, reply: Result<seq<Deck>, string>)
      modifies this`decks
      ensures decks == if userSignedIn && reply.Success? then reply.value else old(decks)
    {
      if !userSignedIn {
        return;
      }
      if reply.Success? {
        decks := reply.value;
      }
    }

    /** `handleCreateDeck`: without a user nothing happens; otherwise the
        created deck is appended, or the service's error is rethrown and the
        list stays. */
    method HandleCreateDeck(userSignedIn: bool, reply: Result<Deck, string>) returns (thrown: Option<string>)
      modifies this`decks
      ensures userSignedIn && reply.Success? ==> decks == Appended(old(decks), reply.value)
      ensures !(userSignedIn && reply.Success?) ==> decks == old(decks)
      ensures thrown == if userSignedIn && reply.Failure? then Some(reply.error) else None
    {
      thrown := None;
      if !userSignedIn {
        return;
      }
      match reply
      case Success(newDeck) =>
        decks := decks + [newDeck];
      case Failure(error) =>
        thrown := Some(error);
    }

    /** `handleUpdateDeck`: every deck with the id is replaced by the updated
        deck, or the service's error is rethrown and the list stays. */
    method HandleUpdateDeck(id: string, reply: Result<Deck, string>) returns (thrown: Option<string>)
      modifies this`decks
      ensures reply.Success? ==> decks == ReplacedById(old(decks), id, reply.value)
      ensures reply.Failure? ==> decks == old(decks)
      ensures thrown == if reply.Failure? then Some(reply.error) else None
    {
      thrown := None;
      match reply
      case Success(updatedDeck) =>
        decks := ReplacedById(decks, id, updatedDeck);
      case Failure(error) =>
        thrown := Some(error);
    }

    /** `toggleDropdown`. */
    method ToggleDropdown(deckId: string)
      modifies this`activeDropdownId
      ensures activeDropdownId == Toggled(old(activeDropdownId), deckId)
    {
      if activeDropdownId == Some(deckId) {
        activeDropdownId := None;
      } else {
        activeDropdownId := Some(deckId);
      }
    }

    /** The options menu's `onClose`. */
    method CloseDropdown()
      modifies this`activeDropdownId
      ensures activeDropdownId.None?
    {
      activeDropdownId := None;
    }

    /** `handleUpdate`: selects the first deck with the id and opens the update
        dialog, if there is such a deck; the menu closes either way. */
    method HandleUpdate(deckId: string)
      modifies this`selectedDeck, this`isUpdateModalOpen, this`activeDropdownId
      ensures FindById(decks, deckId).Some? ==> selectedDeck == FindById(decks, deckId) && isUpdateModalOpen
      ensures FindById(decks, deckId).None? ==>
        selectedDeck == old(selectedDeck) && isUpdateModalOpen == old(isUpdateModalOpen)
      ensures activeDropdownId.None?
    {
      var deckToUpdate := FindById(decks, deckId);
      if deckToUpdate.Some? {
        selectedDeck := deckToUpdate;
        isUpdateModalOpen := true;
      }
      activeDropdownId := None;
    }

    /** `handleBrowse`: closes the menu and returns the route it navigates to. */
    method HandleBrowse(deckId: string) returns (route: string)
      modifies this`activeDropdownId
      ensures activeDropdownId.None?
      ensures route == "/deck/" + deckId
    {
      activeDropdownId := None;
      route := "/deck/" + deckId;
    }

    /** `handleDelete`: once the user confirms and the service succeeds, every
        deck with the id leaves the list; a refusal or a failed call leaves the
        list as it was. The menu closes either way. */
    method HandleDelete(deckId: string, confirmed: bool, reply: Outcome<string>)
      modifies this`decks, this`activeDropdownId
      ensures decks == if confirmed && reply.Pass? then RemovedById(old(decks), deckId) else old(decks)
      ensures activeDropdownId.None?
    {
      if confirmed {
        if reply.Pass? {
          decks := RemovedById(decks, deckId);
        }
      }
      activeDropdownId := None;
    }

    /** `handleCustomStudy`: selects the first deck with the id and opens the
        custom-study dialog, if there is such a deck; the menu closes either way. */
    method HandleCustomStudy(deckId: string)
      modifies this`selectedDeck, this`isCustomStudyDialogOpen, this`activeDropdownId
      ensures FindById(decks, deckId).Some? ==> selectedDeck == FindById(decks, deckId) && isCustomStudyDialogOpen
      ensures FindById(decks, deckId).None? ==>
        selectedDeck == old(selectedDeck) && isCustomStudyDialogOpen == old(isCustomStudyDialogOpen)
      ensures activeDropdownId.None?
    {
      var deck := FindById(decks, deckId);
      if deck.Some? {
        selectedDeck := deck;
        isCustomStudyDialogOpen := true;
      }
      activeDropdownId := None;
    }

    /** `handleCreateCustomStudy`: with a user and a selected deck, a custom
        study deck created by the service is opened for review; otherwise, or
        when the call fails, the page stays where it is. */
    method HandleCreateCustomStudy(userSignedIn: bool, reply: Result<CustomStudyDeck, string>) returns (route: Option<string>)
      ensures route.Some? <==> userSignedIn && selectedDeck.Some? && reply.Success?
      ensures route.Some? ==> route.value == "/deck/" + reply.value.id + "/review"
    {
      if !userSignedIn || selectedDeck.None? {
        return None;
      }
      match reply
      case Success(customDeck) =>
        route := Some("/deck/" + customDeck.id + "/review");
      case Failure(_) =>
        route := None;
    }
  }
}
