/**
 * The saved-card store: one ordered list of saved cards that every operation
 * loads whole, and that `saveCard` and `removeCard` replace whole.
 */
module NfcManager {
  import opened Wrappers
  import opened NfcData

  /** `cards.any { it.id == id }`. */
  function AnyWithId(cards: seq<NFCCard>, id: string): (b: bool)
    ensures b <==> exists i :: 0 <= i < |cards| && cards[i].id == id
  {
    if |cards| == 0 then false
    else if cards[0].id == id then true
    else
      assert forall i :: 1 <= i < |cards| ==> cards[i] == cards[1..][i - 1];
      AnyWithId(cards[1..], id)
  }

  /** `cards.find { it.id == id }`: the first card with that id. */
  function FindById(cards: seq<NFCCard>, id: string): (r: Option<NFCCard>)
    ensures r.None? <==> !AnyWithId(cards, id)
    ensures r.Some? ==> exists i :: 0 <= i < |cards| && cards[i] == r.value && r.value.id == id &&
                                    forall j :: 0 <= j < i ==> cards[j].id != id
  {
    if |cards| == 0 then None
    else if cards[0].id == id then Some(cards[0])
    else
      var r := FindById(cards[1..], id);
      assert r.Some? ==> exists i :: 1 <= i < |cards| && cards[i] == r.value && r.value.id == id &&
                                     forall j :: 0 <= j < i ==> cards[j].id != id by {
        if r.Some? {
          var k :| 0 <= k < |cards| - 1 && cards[1..][k] == r.value && r.value.id == id &&
                   forall j :: 0 <= j < k ==> cards[1..][j].id != id;
          assert forall j :: 1 <= j < k + 1 ==> cards[j] == cards[1..][j - 1];
        }
      }
      r
  }

  /** `cards.filter { it.id != id }`. */
  function WithoutId(cards: seq<NFCCard>, id: string): (r: seq<NFCCard>)
    ensures forall c :: c in r <==> c in cards && c.id != id
    ensures |r| < |cards| <==> AnyWithId(cards, id)
    ensures !AnyWithId(cards, id) ==> r == cards
  {
    if |cards| == 0 then []
    else
      var rest := WithoutId(cards[1..], id);
      assert cards == [cards[0]] + cards[1..];
      assert AnyWithId(cards, id) <==> cards[0].id == id || AnyWithId(cards[1..], id);
      if cards[0].id != id then [cards[0]] + rest else rest
  }

  /** Filtering distributes over concatenation, so it keeps the order of what it keeps. */
  lemma {:induction false} WithoutIdOfConcat(a: seq<NFCCard>, b: seq<NFCCard>, id: string)
    ensures WithoutId(a + b, id) == WithoutId(a, id) + WithoutId(b, id)
  {
    if |a| == 0 {
      assert a + b == b;
    } else {
      assert (a + b)[1..] == a[1..] + b;
      WithoutIdOfConcat(a[1..], b, id);
    }
  }

  ghost predicate DistinctIds(cards: seq<NFCCard>) {
    forall i, j :: 0 <= i < j < |cards| ==> cards[i].id != cards[j].id
  }

  /** The card `saveCard` builds for a new capture: default label "NFC Card <id>", not emulating. */
  function NewCard(nfcData: NFCData, name: Option<string>): NFCCard {
    NFCCard(nfcData.id, name.GetOr("NFC Card " + nfcData.id), nfcData, false)
  }

  /** The list `saveCard` leaves behind. */
  function AfterSave(cards: seq<NFCCard>, nfcData: NFCData, name: Option<string>): seq<NFCCard> {
    if AnyWithId(cards, nfcData.id) then cards else cards + [NewCard(nfcData, name)]
  }

  /** The card `saveCard` returns: the stored one for a known id, otherwise the new one. */
  function SavedCard(cards: seq<NFCCard>, nfcData: NFCData, name: Option<string>): NFCCard {
    match FindById(cards, nfcData.id)
    case Some(c) => c
    case None => NewCard(nfcData, name)
  }

  /**
   * Saving two captures with the same id: the second call changes nothing and
   * returns what the first returned, so the list grows by at most one card,
   * and by exactly one when the id was new.
   */
  lemma SaveTwiceSavesOnce(cards: seq<NFCCard>, d1: NFCData, n1: Option<string>, d2: NFCData, n2: Option<string>)
    requires d1.id == d2.id
    ensures AfterSave(AfterSave(cards, d1, n1), d2, n2) == AfterSave(cards, d1, n1)
    ensures SavedCard(AfterSave(cards, d1, n1), d2, n2) == SavedCard(cards, d1, n1)
    ensures SavedCard(cards, d1, n1).id == d1.id
    ensures |AfterSave(cards, d1, n1)| == if AnyWithId(cards, d1.id) then |cards| else |cards| + 1
  {
    var after := AfterSave(cards, d1, n1);
    if !AnyWithId(cards, d1.id) {
      assert after[|cards|].id == d1.id;
      var r := FindById(after, d1.id);
      var i :| 0 <= i < |after| && after[i] == r.value && r.value.id == d1.id &&
               forall j :: 0 <= j < i ==> after[j].id != d1.id;
      assert i == |cards|;
    }
  }

  /** `saveCard` keeps the ids of the list distinct. */
  lemma SaveKeepsIdsDistinct(cards: seq<NFCCard>, nfcData: NFCData, name: Option<string>)
    requires DistinctIds(cards)
    ensures DistinctIds(AfterSave(cards, nfcData, name))
  {
    if !AnyWithId(cards, nfcData.id) {
      var r := AfterSave(cards, nfcData, name);
      forall i, j | 0 <= i < j < |r| ensures r[i].id != r[j].id {
        if j == |cards| {
          assert r[i] == cards[i];
        }
      }
    }
  }

  /** `removeCard` keeps the ids of the list distinct. */
  lemma {:induction false} RemoveKeepsIdsDistinct(cards: seq<NFCCard>, id: string)
    requires DistinctIds(cards)
    ensures DistinctIds(WithoutId(cards, id))
  {
    if |cards| > 0 {
      RemoveKeepsIdsDistinct(cards[1..], id);
      var rest := WithoutId(cards[1..], id);
      forall c | c in rest ensures c.id != cards[0].id {
        var k :| 0 <= k < |cards| - 1 && cards[1..][k] == c;
        assert cards[k + 1] == c;
      }
    }
  }

  /**
   * The store, with the persisted list held in a field. Each operation of
   * the Kotlin class reads the whole list and, when it changes it, writes a
   * whole new list.
   */
  class CardStore {
    var cards: seq<NFCCard>

    /** A store whose file does not exist yet: the empty list. */
    constructor ()
      ensures cards == []
    {
      cards := [];
    }

    /** `isCardExists`. */
    function IsCardExists(tagId: string): (b: bool)
      reads this
      ensures b <==> exists i :: 0 <= i < |cards| && cards[i].id == tagId
    {
      AnyWithId(cards, tagId)
    }

    /** `getCardByTagId`: the first saved card with that id. */
    function GetCardByTagId(tagId: string): (r: Option<NFCCard>)
      reads this
      ensures r.None? <==> !IsCardExists(tagId)
      ensures r.Some? ==> exists i :: 0 <= i < |cards| && cards[i] == r.value && r.value.id == tagId &&
                                      forall j :: 0 <= j < i ==> cards[j].id != tagId
    {
      FindById(cards, tagId)
    }

    /** `getCardDataForEmulation`: the capture of the first saved card with that id. */
    function GetCardDataForEmulation(cardId: string): (r: Option<NFCData>)
      reads this
      ensures r.None? <==> !IsCardExists(cardId)
      ensures r.Some? ==> exists i :: 0 <= i < |cards| && cards[i].id == cardId && cards[i].data == r.value &&
                                      forall j :: 0 <= j < i ==> cards[j].id != cardId
    {
      match FindById(cards, cardId)
      case Some(c) => Some(c.data)
      case None => None
    }

    /**
     * `saveCard`: a known id returns the stored card and writes nothing;
     * a new id appends one card at the end of the list.
     */
    method SaveCard(nfcData: NFCData, name: Option<string>) returns (card: NFCCard)
      modifies this
      ensures cards == AfterSave(old(cards), nfcData, name)
      ensures card == SavedCard(old(cards), nfcData, name)
      ensures card.id == nfcData.id
      ensures old(IsCardExists(nfcData.id)) ==> cards == old(cards)
      ensures !old(IsCardExists(nfcData.id)) ==>
        cards == old(cards) + [card] && card == NFCCard(nfcData.id, name.GetOr("NFC Card " + nfcData.id), nfcData, false)
      ensures old(DistinctIds(cards)) ==> DistinctIds(cards)
    {
      if DistinctIds(cards) {
        SaveKeepsIdsDistinct(cards, nfcData, name);
      }
      SaveTwiceSavesOnce(cards, nfcData, name, nfcData, name);
      if IsCardExists(nfcData.id) {
        var existing := GetCardByTagId(nfcData.id);
        card := existing.value;
        return;
      }
      card := NewCard(nfcData, name);
      cards := cards + [card];
    }

    /**
     * `removeCard`: drops every card with that id and reports whether the
     * list got shorter; when nothing matched the list is left as it was.
     */
    method RemoveCard(cardId: string) returns (removed: bool)
      modifies this
      ensures removed <==> old(IsCardExists(cardId))
      ensures cards == WithoutId(old(cards), cardId)
      ensures !removed ==> cards == old(cards)
      ensures !IsCardExists(cardId)
      ensures old(DistinctIds(cards)) ==> DistinctIds(cards)
    {
      if DistinctIds(cards) {
        RemoveKeepsIdsDistinct(cards, cardId);
      }
      var updated := WithoutId(cards, cardId);
      if |updated| < |cards| {
        cards := updated;
        removed := true;
      } else {
        removed := false;
      }
    }
  }
}
